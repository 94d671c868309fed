# OpenCms form container and delete dialog, in Dafny

This project models two pieces of OpenCms that carry logic of their own.

- **`CmsForm`** is the client-side form container of the GWT workplace (module
  `Form`, file `form.dfy`). It keeps:
  - a `LinkedHashMap` from field id to field, modelled as a map plus the
    insertion order of its keys;
  - the initial value snapshot of each field;
  - the reset observers and the "Enter pressed" flag;
  - each field's value, error message and validation status.

  The hosting dialog, the submit handler, the reset observers, widget blur
  and the validation controller are collaborators. The form's calls to them
  are appended to an effect log (`effects`). Validation results and the
  aggregate outcome arrive as method calls. The deferred command that clears
  the Enter flag is an explicit step, `RunDeferredEnterReset`.
- **`CmsDelete`** is the workplace dialog that deletes resources (module
  `Delete`, file `delete.dfy`). It covers:
  - how the request selects the action and the sibling mode;
  - the early "please wait" return;
  - the delete loop, with its single and multi error handling;
  - the lazily built broken-relations helper and its invalidation;
  - the lock and sibling predicates;
  - the sibling radios and the confirmation text;
  - the row counting and sorted listing of `buildRelations`;
  - the page `actionDelete` leads to.

  Every answer of the virtual file system is an input:
  - whether the resource is a folder;
  - the sibling count;
  - the lock;
  - the exception, if any, of each delete (one `Option` per delete, in order);
  - the helper's contents for each sibling flag.

Module `Common` (file `common.dfy`) holds:
- Java's nullable reference, as `Option`;
- `Boolean.valueOf(String)` and `Boolean.toString(boolean)`;
- `String.compareTo` order and the sort used for `Collections.sort`.

Two invariants are kept:
- `CmsForm.Valid()`: each field is registered under its own id, the order
  lists every id once, every id has a snapshot, and every submission in the
  log directly follows a dialog close.
- `DeleteDialog.Valid()`: a cached helper was built for the current
  sibling parameter.

Where the documentation and the code disagree, the model follows the code.
The doc comment of `collectValues` says fields with a null value are left
out of the result. The loop stores them anyway, and `CollectValues` states
that every registered id is present, nulls included.

## Model

| member | source | states |
|---|---|---|
| `Common.ParseBoolean` | src/org/opencms/workplace/commons/CmsDelete.java:440-441 | `Boolean.valueOf`: null and "false" give false; "true" in any ASCII letter case (such as "true", "TRUE", "True") gives true; a true result comes from a four-letter string |
| `Common.ParseBooleanToString` | src/org/opencms/workplace/commons/CmsDelete.java:397 | parsing `Boolean.toString(b)` gives back `b` |
| `Common.CodeUnits` | src/org/opencms/workplace/commons/CmsDelete.java:281 | the UTF-16 code units `compareTo` sees for one character: the character itself below U+10000, otherwise a high and a low surrogate that decode back to the character |
| `Common.Utf16Injective` | src/org/opencms/workplace/commons/CmsDelete.java:281 | different strings have different UTF-16 code unit sequences, so comparing code units orders strings and not only encodings |
| `Common.SortStrings` | src/org/opencms/workplace/commons/CmsDelete.java:280-281 | `Collections.sort` of strings: the result is ordered by `compareTo` (lexicographic on UTF-16 code units, a proper prefix first) and is a permutation of the input |
| `Common.SingleCharOrder` | src/org/opencms/workplace/commons/CmsDelete.java:281 | two characters both below U+10000 or both above compare by code point; a supplementary character sorts after U+D7FF and before U+E000 |
| `Common.AtMostSharedPrefix` | src/org/opencms/workplace/commons/CmsDelete.java:281 | a common prefix does not change how two strings compare |
| `Common.SurrogatePairSortsLow` | src/org/opencms/workplace/commons/CmsDelete.java:281 | "/a" + U+1F600 sorts before "/a" + U+FF21, as the code units 0xD83D < 0xFF21 decide |
| `Common.AtMostTransitive` | src/org/opencms/workplace/commons/CmsDelete.java:281 | the string order used by the sort is transitive |
| `Common.AtMostTotal` | src/org/opencms/workplace/commons/CmsDelete.java:281 | the string order is total |
| `Common.AtMostAntisymmetric` | src/org/opencms/workplace/commons/CmsDelete.java:281 | the string order is antisymmetric |
| `Form.CmsForm.constructor` | src-modules/org/opencms/gwt/client/ui/input/form/CmsForm.java:83-104 | a new form has no fields, snapshots or reset handlers, the flag is clear and nothing has been sent to collaborators |
| `Form.CmsForm.AddField` | src-modules/org/opencms/gwt/client/ui/input/form/CmsForm.java:123-186 | the widget's current value becomes the id's snapshot; the field replaces any earlier field with that id; a new id goes to the end of the order and a known id keeps its place; the value-change and key handlers are attached exactly when the widget supports them; the registry invariant is kept |
| `Form.RegistryAdd` | src-modules/org/opencms/gwt/client/ui/input/form/CmsForm.java:184 | putting a field keeps the registry consistent, with a new id appended and a known id in place |
| `Form.CmsForm.AddFieldWithValue` | src-modules/org/opencms/gwt/client/ui/input/form/CmsForm.java:194-200 | a non-null initial value is put into the widget first, so it becomes the snapshot; with null the widget's own value is the snapshot |
| `Form.FormField.SetFormValue` | src-modules/org/opencms/gwt/client/ui/input/form/CmsForm.java:197 | the widget holds the value it is given |
| `Form.CmsForm.AddResetHandler` | src-modules/org/opencms/gwt/client/ui/input/form/CmsForm.java:221-224 | the handler is appended to the reset handlers |
| `Form.CmsForm.GetField` | src-modules/org/opencms/gwt/client/ui/input/form/CmsForm.java:294-297 | a field is returned exactly when the id is registered, and it is the field registered under that id |
| `Form.CmsForm.CollectValues` | src-modules/org/opencms/gwt/client/ui/input/form/CmsForm.java:262-274 | the keys are exactly the registered ids, each mapped to its field's current value (null included) |
| `Form.CmsForm.NoFieldsInvalid` | src-modules/org/opencms/gwt/client/ui/input/form/CmsForm.java:306-314 | true exactly when no field of the list has status invalid; unknown does not count as invalid |
| `Form.CmsForm.NoneInvalidByList` | src-modules/org/opencms/gwt/client/ui/input/form/CmsForm.java:308-313 | the loop over `m_fields.values()` sees exactly the registered fields, so its answer is "no registered field is invalid" |
| `Form.CmsForm.NoFieldInvalidViews` | src-modules/org/opencms/gwt/client/ui/input/form/CmsForm.java:306-314 | "no registered field is invalid" is the same on the form and on its value-level view |
| `Form.CmsForm.Reset` | src-modules/org/opencms/gwt/client/ui/input/form/CmsForm.java:319-332 | every field shows its snapshot, no error and status unknown, so the fields are `ResetAll` of the fields before; the dialog is asked to enable OK (with `true`); then every reset handler is called once, in registration order |
| `Form.CmsForm.RestoreInitialValues` | src-modules/org/opencms/gwt/client/ui/input/form/CmsForm.java:321-327 | the fields after the loop are the value-level `ResetAll` of the fields before it |
| `Form.CmsForm.UpdateOkButton` | src-modules/org/opencms/gwt/client/ui/input/form/CmsForm.java:328 | the dialog is asked to enable OK exactly when no registered field is invalid |
| `Form.CmsForm.NotifyResetHandlers` | src-modules/org/opencms/gwt/client/ui/input/form/CmsForm.java:329-331 | one notification per registered handler, in registration order |
| `Form.ResetRestoresSnapshots` | src-modules/org/opencms/gwt/client/ui/input/form/CmsForm.java:319-328 | after reset the collected values equal the snapshots, no field is invalid and no error is shown |
| `Form.ResetForgetsEdits` | src-modules/org/opencms/gwt/client/ui/input/form/CmsForm.java:321-327 | the fields after reset do not depend on earlier value changes, status changes or validation results |
| `Form.CmsForm.ApplyValidationResult` | src-modules/org/opencms/gwt/client/ui/input/form/CmsForm.java:408-419 | the fields become `Apply` of the old fields; an unregistered id throws (NullPointerException) and changes nothing |
| `Form.ApplyResult` | src-modules/org/opencms/gwt/client/ui/input/form/CmsForm.java:408-419 | the status becomes valid iff the result has no error message and invalid otherwise; the error becomes the message; the value changes only for a new value; no other field changes |
| `Form.ApplyAndOkButton` | src-modules/org/opencms/gwt/client/ui/input/form/CmsForm.java:414-418 | after a result, no field is invalid iff the result has no error and no other field was invalid |
| `Form.CmsForm.ValidateField` | src-modules/org/opencms/gwt/client/ui/input/form/CmsForm.java:396-400 | a validation of that one field starts, and it never submits |
| `Form.CmsForm.DoInitialValidation` | src-modules/org/opencms/gwt/client/ui/input/form/CmsForm.java:279-285 | a validation of all fields starts, and it never submits |
| `Form.CmsForm.ValidateAndSubmit` | src-modules/org/opencms/gwt/client/ui/input/form/CmsForm.java:357-389 | a validation of all fields starts, and it submits on success |
| `Form.CmsForm.OnValueChange` | src-modules/org/opencms/gwt/client/ui/input/form/CmsForm.java:136-147 | the changed field's status becomes unknown and nothing else of any field changes, so for a registered field the fields become `Unvalidate` of the fields before; only that field is validated when the flag is clear, and the whole form is validated and submitted when it is set |
| `Form.UnvalidateKeepsNoneInvalid` | src-modules/org/opencms/gwt/client/ui/input/form/CmsForm.java:138 | marking a field unknown never makes a field invalid and leaves the collected values unchanged |
| `Form.CmsForm.OnKeyPress` | src-modules/org/opencms/gwt/client/ui/input/form/CmsForm.java:157-178 | Enter sets the flag, blurs a widget that can blur and queues one deferred reset of the flag; any other key changes nothing |
| `Form.CmsForm.RunDeferredEnterReset` | src-modules/org/opencms/gwt/client/ui/input/form/CmsForm.java:173-176 | the deferred command clears the flag |
| `Form.CmsForm.OnFieldValidationFinished` | src-modules/org/opencms/gwt/client/ui/input/form/CmsForm.java:433-436 | whatever the outcome, only the OK state is updated; nothing is submitted |
| `Form.CmsForm.OnSubmitValidationFinished` | src-modules/org/opencms/gwt/client/ui/input/form/CmsForm.java:366-375 | on success the dialog is closed and then exactly the collected values are submitted; on failure nothing is submitted, the dialog stays open and the OK state is updated |
| `Form.SubmitFollowsCloseAppend` | src-modules/org/opencms/gwt/client/ui/input/form/CmsForm.java:369-370 | "every submission directly follows a close" survives appending calls that keep it too |
| `Form.ResetScenario` | src-modules/org/opencms/gwt/client/ui/input/form/CmsForm.java:319-332 | a field added with "A" whose widget is then set to "B" collects as "A" again after reset |
| `Delete.ChooseAction` | src/org/opencms/workplace/commons/CmsDelete.java:400-418 | without write permission the action is cancel; a null parameter gives the default action; the delete action needs write permission and the parameter "delete" |
| `Delete.ChooseActionByParam` | src/org/opencms/workplace/commons/CmsDelete.java:408-418 | with write permission each action is selected by its own parameter, and only "delete", wait and cancel leave the default |
| `Delete.DeleteOption` | src/org/opencms/workplace/commons/CmsDelete.java:440-441 | a null parameter preserves siblings |
| `Delete.DefaultParamSelectsUserMode` | src/org/opencms/workplace/commons/CmsDelete.java:396-398 | the parameter filled in for a missing one selects the user's default delete mode |
| `Delete.HasCorrectLockstate` | src/org/opencms/workplace/commons/CmsDelete.java:345-359 | false when the lock cannot be read; for a non-null lock, true iff exclusive or inherited; a null lock alone needs autolock |
| `Delete.HasSiblings` | src/org/opencms/workplace/commons/CmsDelete.java:366-375 | false when the resource cannot be read; otherwise true exactly for a sibling count of at least two |
| `Delete.BuildDeleteSiblings` | src/org/opencms/workplace/commons/CmsDelete.java:171-210 | the radios appear exactly for a multi operation, a folder, or siblings together with a correct lock state; the warning appears exactly for a single non-folder resource |
| `Delete.CheckedRadioKeepsMode` | src/org/opencms/workplace/commons/CmsDelete.java:184-207 | exactly one radio is checked: "false" iff the mode is preserve, "true" iff remove; submitting the checked value selects the same mode again |
| `Delete.BuildConfirmation` | src/org/opencms/workplace/commons/CmsDelete.java:217-236 | a multi operation always gets the multi confirmation text |
| `Delete.ConfirmationMatchesRadios` | src/org/opencms/workplace/commons/CmsDelete.java:229-233 | the multi confirmation text appears exactly when the sibling radios do |
| `Delete.FailuresEmpty` | src/org/opencms/workplace/commons/CmsDelete.java:449-460 | no exception is collected exactly when every delete succeeds |
| `Delete.SingleOutcomeAt` | src/org/opencms/workplace/commons/CmsDelete.java:453-455 | a single operation whose first failure is at i throws that failure after exactly i + 1 deletes |
| `Delete.OutcomeAfterLoop` | src/org/opencms/workplace/commons/CmsDelete.java:458-462 | a loop that ran to its end attempted every resource and fails exactly with the collected exceptions |
| `Delete.DeleteDialog.DeleteResources` | src/org/opencms/workplace/commons/CmsDelete.java:443-462 | the resources are deleted in order with the given option; a single operation throws the first failure and attempts nothing after it; a multi operation attempts all and throws all collected failures; with no failure it returns true |
| `Delete.FirstFailure` | src/org/opencms/workplace/commons/CmsDelete.java:443-458 | the index of the first failing delete, with every earlier delete succeeding, or none when all succeed |
| `Delete.FirstFailureAt` | src/org/opencms/workplace/commons/CmsDelete.java:453-455 | a failure preceded only by successes is the first failure |
| `Delete.Failures` | src/org/opencms/workplace/commons/CmsDelete.java:449-452 | the number of collected exceptions never exceeds the number of resources |
| `Delete.FailuresExact` | src/org/opencms/workplace/commons/CmsDelete.java:449-452 | every failing delete's exception is collected, and every collected one comes from a failing delete |
| `Delete.AttemptCount` | src/org/opencms/workplace/commons/CmsDelete.java:443-458 | never more deletes than resources |
| `Delete.Attempts` | src/org/opencms/workplace/commons/CmsDelete.java:446-448 | one delete per resource, in order, all with the same sibling option |
| `Delete.DeleteSucceedsIffAllDeleted` | src/org/opencms/workplace/commons/CmsDelete.java:443-462 | past the early return the operation never returns false, and it returns true exactly when every delete succeeds, in both modes |
| `Delete.FirstCollectedIsFirstFailure` | src/org/opencms/workplace/commons/CmsDelete.java:449-456 | the first exception a multi operation collects is the first failing delete |
| `Delete.ModesAgreeOnFirstFailure` | src/org/opencms/workplace/commons/CmsDelete.java:449-456 | single and multi operations fail on the same inputs, and the single exception is the first of the multi ones |
| `Delete.CountRows` | src/org/opencms/workplace/commons/CmsDelete.java:250-259 | the early-stopping count exceeds six exactly when the full row total does, and is exact when the total is at most six |
| `Delete.RowTotalPrefix` | src/org/opencms/workplace/commons/CmsDelete.java:252-258 | a prefix of the entries never needs more rows than all of them |
| `Delete.RenderRelations` | src/org/opencms/workplace/commons/CmsDelete.java:245-290 | nothing for an empty helper; otherwise the "more than six rows" choice, and one entry per helper resource: the resources in the order `SortStrings` gives them (ordered by `compareTo`, a permutation), numbered 0, 1, 2, ... |
| `Delete.DeleteDialog.constructor` | src/org/opencms/workplace/commons/CmsDelete.java:97-101 | a new dialog has no parameters and no helper |
| `Delete.DeleteDialog.SetParamDeleteSiblings` | src/org/opencms/workplace/commons/CmsDelete.java:382-386 | the value is stored and the cached helper is dropped |
| `Delete.DeleteDialog.GetHelper` | src/org/opencms/workplace/commons/CmsDelete.java:302-309 | the result is the helper for the current parameter's flag; it is built only when none is cached and cached afterwards |
| `Delete.HelperFollowsParameter` | src/org/opencms/workplace/commons/CmsDelete.java:302-309 | after a parameter change the next helper is built for the new flag, and asking again reuses it |
| `Delete.DeleteDialog.InitWorkplaceRequestValues` | src/org/opencms/workplace/commons/CmsDelete.java:391-419 | a missing sibling parameter becomes "true"/"false" from the user's default mode; without write permission the action parameter is cancel; the dialog type is "delete"; the action is `ChooseAction` of the request |
| `Delete.DeleteDialog.PerformDialogOperation` | src/org/opencms/workplace/commons/CmsDelete.java:427-463 | a multi or folder operation not yet in wait returns false and deletes nothing; otherwise the outcome and the deletes are those of the delete loop, with the sibling option of the parameter |
| `Delete.DeleteDialog.ActionDelete` | src/org/opencms/workplace/commons/CmsDelete.java:138-164 | a failed folder read or any thrown failure leads to the error page; false leads to the wait screen; success closes the dialog and, for a multi operation or a folder, reloads the tree at the first resource's parent; an empty resource list there leads to the error page |
| `Delete.DeleteDialog.BuildRelations` | src/org/opencms/workplace/commons/CmsDelete.java:243-295 | the listing of the helper for the current parameter: empty iff the helper is, rows decided on its row total, its resources in `SortStrings` order numbered 0, 1, 2, ...; the helper is built at most once |

## Left out

- The GWT user interface is not modelled. This covers rows, labels,
  separators, CSS and the widget classes. A field and its widget are merged
  into one `FormField` object.
- `CmsFormDialog` is not part of this model. That includes its deferred
  `setOkButtonEnabled`. Only the calls the form makes are recorded.
- The dialog and the form handler are assumed to be set. The
  NullPointerException a missing dialog or handler would cause is not
  modelled.
- `CmsValidationController` and the GWT scheduler are not modelled. Results
  arrive as explicit calls, and the deferred flag reset is an explicit step.
  Which results arrive, and in what order, is up to the caller.
- `CmsValidationResult.hasNewValue()` is modelled as "a new value is
  present".
- Form.CmsForm.OnValueChange: a handler is modelled for a field that got
  one from `addField`, including a field that a later field with the same
  id has replaced. Such a stale field's status changes, but it is no longer
  in the registry.
- `Common.ParseBoolean` uses ASCII case folding. `Common.SortStrings`
  compares strings by their UTF-16 code units, computed from Dafny's
  Unicode characters by `Common.Utf16`. Locale-specific case folding is not
  modelled.
- The following framework calls become inputs:
  - virtual file system reads, locks and deletes;
  - permission checks;
  - the autolock setting;
  - the user's default delete mode;
  - the contents of `CmsDeleteResourcesHelper`.
- `checkLock` and `deleteResource` are one outcome per delete. The model
  does not distinguish which of the two threw.
- `DIALOG_WAIT` and `DIALOG_CANCEL` are declared in `CmsDialog`, which is
  not part of this model. They are taken to be "wait" and "cancel".
- The numeric action codes other than `ACTION_DELETE` (100) and the
  `CmsResource.DELETE_*` constants are not in the files modelled. They are
  datatype constructors here.
- `isOperationOnFolder` and `checkMultiOperationException` come from
  `CmsMultiDialog`, which is not part of this model.
  - The folder test is an input.
  - The final check is taken to throw exactly when the operation's own
    collected list is non-empty. That list starts empty.
- `fillParamValues` is taken to pass each request parameter, or null, to
  its setter.
- `setDialogTitle` and every localized message (`key`, `Messages`) are left
  out. So are `buildFoldableEntry`'s markup and site names, and the
  user-agent-dependent padding. Only the "more than six rows" decision the
  padding depends on is kept.
- The parent folder computed for the tree reload
  (`CmsResource.getParentFolder`) is left out. The model records the
  resource it is taken from.
- `isCanDelete`, `getDialogHandler` and `getDialogUri` are left out. They
  return a role check or constants and carry no logic of this dialog.
- `CmsContainer`, `CmsException` and `Messages` carry no behaviour of these
  two components.
- Logging of caught exceptions is left out.
- Delete.DeleteDialog.DeleteResources: only `CmsException` outcomes of
  `checkLock` and `deleteResource` are modelled. An unchecked exception
  there is not caught by the loop, even in a multi operation: it skips the
  remaining resources and reaches the `catch (Throwable e)` of
  `actionDelete`. The model's outcome of a delete is success or a
  `CmsException`, so `Delete.DeleteSucceedsIffAllDeleted` and "a multi
  operation attempts every resource" hold for those outcomes only.
