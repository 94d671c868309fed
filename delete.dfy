/** The workplace dialog that deletes one or several VFS resources
    (CmsDelete): how the request selects the dialog action and the sibling
    mode, the "please wait" detour, the delete loop over the resource list,
    the cached broken-relations helper and the parts of the page that depend
    on a decision (sibling radios, confirmation text, relation rows).
    Every answer of the VFS (resource type, sibling count, lock, the outcome
    of each delete, the broken relations) is an input. */
module Delete {
  import opened Common

  /** CmsDelete.DIALOG_TYPE, also the action parameter that confirms. */
  const DIALOG_TYPE: string := "delete"
  /** CmsDialog.DIALOG_WAIT and CmsDialog.DIALOG_CANCEL. */
  const DIALOG_WAIT: string := "wait"
  const DIALOG_CANCEL: string := "cancel"

  // ---------------------------------------------------------------------
  // Request values
  // ---------------------------------------------------------------------

  /** The action the JSP switch runs (ACTION_DELETE, whose code is 100, and
      the wait, cancel and default actions of the dialog base class). */
  datatype Action = ActionDelete | ActionWait | ActionCancel | ActionDefault

  /** The action chosen in initWorkplaceRequestValues: without write
      permission the action parameter is forced to cancel; then "delete",
      wait and cancel select their actions and anything else (null
      included) shows the dialog. */
  function ChooseAction(paramAction: Option<string>, canWrite: bool): (a: Action)
    ensures !canWrite ==> a == ActionCancel
    ensures canWrite && paramAction == None ==> a == ActionDefault
    ensures a == ActionDelete ==> canWrite && paramAction == Some(DIALOG_TYPE)
  {
    var p := if canWrite then paramAction else Some(DIALOG_CANCEL);
    if p == Some(DIALOG_TYPE) then ActionDelete
    else if p == Some(DIALOG_WAIT) then ActionWait
    else if p == Some(DIALOG_CANCEL) then ActionCancel
    else ActionDefault
  }

  /** The action parameter that requests a given action. */
  function ActionParam(a: Action): Option<string>
  {
    match a
    case ActionDelete => Some(DIALOG_TYPE)
    case ActionWait => Some(DIALOG_WAIT)
    case ActionCancel => Some(DIALOG_CANCEL)
    case ActionDefault => None
  }

  /** With write permission every action is reached by its own parameter,
      and only the three known parameters leave the default action. */
  lemma ChooseActionByParam(a: Action, p: Option<string>)
    ensures ChooseAction(ActionParam(a), true) == a
    ensures ChooseAction(p, true) != ActionDefault <==>
              p == Some(DIALOG_TYPE) || p == Some(DIALOG_WAIT) || p == Some(DIALOG_CANCEL)
  {
  }

  /** CmsResource.DELETE_PRESERVE_SIBLINGS / DELETE_REMOVE_SIBLINGS. */
  datatype DeleteMode = PreserveSiblings | RemoveSiblings

  /** The delete option used by the delete loop (and the default radio):
      remove siblings exactly when the parameter is Boolean "true". */
  function DeleteOption(param: Option<string>): (m: DeleteMode)
    ensures param == None ==> m == PreserveSiblings
  {
    if ParseBoolean(param) then RemoveSiblings else PreserveSiblings
  }

  /** The parameter initWorkplaceRequestValues fills in when the request has
      none: Boolean.toString of "the user's default mode removes siblings". */
  function DefaultParam(userMode: DeleteMode): string
  {
    BooleanToString(userMode == RemoveSiblings)
  }

  /** The filled-in default selects the user's own mode. */
  lemma DefaultParamSelectsUserMode(userMode: DeleteMode)
    ensures DeleteOption(Some(DefaultParam(userMode))) == userMode
  {
    ParseBooleanToString(userMode == RemoveSiblings);
  }

  // ---------------------------------------------------------------------
  // Lock state and siblings
  // ---------------------------------------------------------------------

  /** The CmsLock of the resource, as far as the dialog looks at it. */
  datatype Lock = Lock(isNullLock: bool, isExclusive: bool, isInherited: bool)

  /** hasCorrectLockstate: None for lockRead means getLock threw. */
  function HasCorrectLockstate(lockRead: Option<Lock>, autoLock: bool): (ok: bool)
    ensures lockRead == None ==> !ok
    ensures ok && lockRead.value.isNullLock && !lockRead.value.isExclusive && !lockRead.value.isInherited ==> autoLock
    ensures lockRead.Some? && !lockRead.value.isNullLock ==> (ok <==> lockRead.value.isExclusive || lockRead.value.isInherited)
  {
    match lockRead
    case None => false
    case Some(lock) => (lock.isNullLock && autoLock) || lock.isExclusive || lock.isInherited
  }

  /** hasSiblings: None for siblingCount means readResource threw. */
  function HasSiblings(siblingCount: Option<int>): (b: bool)
    ensures siblingCount == None ==> !b
    ensures b ==> siblingCount.value >= 2
    ensures siblingCount.Some? && siblingCount.value >= 2 ==> b
  {
    siblingCount.Some? && siblingCount.value > 1
  }

  // ---------------------------------------------------------------------
  // Sibling radios and confirmation text
  // ---------------------------------------------------------------------

  /** The condition shared by buildDeleteSiblings and buildConfirmation;
      the folder test of a single resource counts as false when reading the
      resource fails. */
  predicate OffersSiblingChoice(isMulti: bool, folderRead: Option<bool>, siblingCount: Option<int>,
                                lockRead: Option<Lock>, autoLock: bool)
  {
    isMulti || (folderRead == Some(true)) || (HasSiblings(siblingCount) && HasCorrectLockstate(lockRead, autoLock))
  }

  datatype Radio = Radio(value: string, checked: bool)

  /** What buildDeleteSiblings shows: the sibling warning (single file only)
      and the two radios "false" (preserve) and "true" (remove). */
  datatype SiblingOptions = SiblingOptions(warning: bool, radios: seq<Radio>)

  function BuildDeleteSiblings(isMulti: bool, folderRead: Option<bool>, siblingCount: Option<int>,
                               lockRead: Option<Lock>, autoLock: bool, param: Option<string>): (r: Option<SiblingOptions>)
    ensures r.Some? <==> OffersSiblingChoice(isMulti, folderRead, siblingCount, lockRead, autoLock)
    ensures r.Some? ==> r.value.warning <==> !isMulti && folderRead != Some(true)
  {
    if OffersSiblingChoice(isMulti, folderRead, siblingCount, lockRead, autoLock) then
      var mode := DeleteOption(param);
      Some(SiblingOptions(!isMulti && folderRead != Some(true),
                          [Radio("false", mode == PreserveSiblings), Radio("true", mode == RemoveSiblings)]))
    else None
  }

  /** Exactly one radio is checked, and submitting the checked radio's value
      as the parameter selects the same mode again. */
  lemma CheckedRadioKeepsMode(isMulti: bool, folderRead: Option<bool>, siblingCount: Option<int>,
                              lockRead: Option<Lock>, autoLock: bool, param: Option<string>)
    requires BuildDeleteSiblings(isMulti, folderRead, siblingCount, lockRead, autoLock, param).Some?
    ensures var rs := BuildDeleteSiblings(isMulti, folderRead, siblingCount, lockRead, autoLock, param).value.radios;
      |rs| == 2 && rs[0].value == "false" && rs[1].value == "true" &&
      (rs[0].checked <==> !rs[1].checked) &&
      (rs[0].checked <==> DeleteOption(param) == PreserveSiblings) &&
      forall i :: 0 <= i < |rs| && rs[i].checked ==> DeleteOption(Some(rs[i].value)) == DeleteOption(param)
  {
    ParseBooleanToString(false);
    ParseBooleanToString(true);
  }

  datatype Confirmation = MultiConfirmation | SingleConfirmation

  /** buildConfirmation. */
  function BuildConfirmation(isMulti: bool, folderRead: Option<bool>, siblingCount: Option<int>,
                             lockRead: Option<Lock>, autoLock: bool): (c: Confirmation)
    ensures isMulti ==> c == MultiConfirmation
  {
    if OffersSiblingChoice(isMulti, folderRead, siblingCount, lockRead, autoLock) then MultiConfirmation
    else SingleConfirmation
  }

  /** The "multi" confirmation text appears exactly when the sibling radios
      do. */
  lemma ConfirmationMatchesRadios(isMulti: bool, folderRead: Option<bool>, siblingCount: Option<int>,
                                  lockRead: Option<Lock>, autoLock: bool, param: Option<string>)
    ensures BuildConfirmation(isMulti, folderRead, siblingCount, lockRead, autoLock) == MultiConfirmation <==>
              BuildDeleteSiblings(isMulti, folderRead, siblingCount, lockRead, autoLock, param).Some?
  {
  }

  // ---------------------------------------------------------------------
  // The delete loop
  // ---------------------------------------------------------------------

  /** A CmsException from checkLock or deleteResource for one resource. */
  datatype Failure = Failure(resource: string, message: string)

  /** What performDialogOperation throws: the first exception of a single
      operation, or the multi-operation exception with all collected ones. */
  datatype DeleteError = SingleError(failure: Failure) | MultiError(failures: seq<Failure>)

  datatype OpResult = Returned(done: bool) | Threw(error: DeleteError)

  /** One call of performSingleDeleteOperation. */
  datatype Attempt = Attempt(resource: string, mode: DeleteMode)

  /** The early return: a folder or a multi operation first shows the
      "please wait" screen unless the action parameter is already wait. */
  predicate ShowsWaitFirst(isMulti: bool, isFolder: bool, paramAction: Option<string>)
  {
    (isMulti || isFolder) && paramAction != Some(DIALOG_WAIT)
  }

  /** The index of the first failing delete, answers[k] being the error of
      the k-th delete (None when it succeeds). */
  function FirstFailure(answers: seq<Option<string>>): (k: Option<nat>)
    ensures k.Some? ==> k.value < |answers| && answers[k.value].Some? &&
                        forall j :: 0 <= j < k.value ==> answers[j].None?
    ensures k.None? ==> forall j :: 0 <= j < |answers| ==> answers[j].None?
  {
    if answers == [] then None
    else if answers[0].Some? then Some(0)
    else
      match FirstFailure(answers[1..])
      case None => None
      case Some(k) => Some(k + 1)
  }

  /** The exceptions a multi operation collects, in resource order. */
  function Failures(resources: seq<string>, answers: seq<Option<string>>): (fs: seq<Failure>)
    requires |answers| == |resources|
    ensures |fs| <= |resources|
    decreases |resources|
  {
    if resources == [] then []
    else
      var n := |resources| - 1;
      var rest := Failures(resources[..n], answers[..n]);
      assert forall j :: 0 <= j < n ==> answers[..n][j] == answers[j];
      rest + (if answers[n].Some? then [Failure(resources[n], answers[n].value)] else [])
  }

  /** No exception is collected exactly when every delete succeeds. */
  lemma {:induction false} FailuresEmpty(resources: seq<string>, answers: seq<Option<string>>)
    requires |answers| == |resources|
    ensures Failures(resources, answers) == [] <==> forall j :: 0 <= j < |answers| ==> answers[j].None?
    decreases |resources|
  {
    if resources != [] {
      var n := |resources| - 1;
      FailuresEmpty(resources[..n], answers[..n]);
      assert forall j :: 0 <= j < n ==> answers[..n][j] == answers[j];
    }
  }

  /** The collected exceptions are exactly those of the failing deletes:
      none is lost and none is invented. */
  lemma {:induction false} FailuresExact(resources: seq<string>, answers: seq<Option<string>>)
    requires |answers| == |resources|
    ensures forall j :: 0 <= j < |resources| && answers[j].Some? ==> Failure(resources[j], answers[j].value) in Failures(resources, answers)
    ensures forall f :: f in Failures(resources, answers) ==>
              exists j :: 0 <= j < |resources| && answers[j] == Some(f.message) && resources[j] == f.resource
    decreases |resources|
  {
    if resources != [] {
      var n := |resources| - 1;
      var rs, ans := resources[..n], answers[..n];
      FailuresExact(rs, ans);
      var last := if answers[n].Some? then [Failure(resources[n], answers[n].value)] else [];
      assert Failures(resources, answers) == Failures(rs, ans) + last;
      forall j | 0 <= j < n
        ensures rs[j] == resources[j] && ans[j] == answers[j]
      {
      }
    }
  }

  /** One more iteration of the collecting loop. */
  lemma FailuresStep(resources: seq<string>, answers: seq<Option<string>>, i: nat)
    requires |answers| == |resources| && i < |resources|
    ensures Failures(resources[..i + 1], answers[..i + 1]) ==
              Failures(resources[..i], answers[..i]) + (if answers[i].Some? then [Failure(resources[i], answers[i].value)] else [])
  {
    assert resources[..i + 1][..i] == resources[..i] && answers[..i + 1][..i] == answers[..i];
  }

  /** A failure preceded only by successes is the first failure. */
  lemma FirstFailureAt(answers: seq<Option<string>>, i: nat)
    requires i < |answers| && answers[i].Some?
    requires forall j :: 0 <= j < i ==> answers[j].None?
    ensures FirstFailure(answers) == Some(i)
  {
  }

  /** What the loop and the final check of performDialogOperation produce
      once the early return is passed. */
  function DeleteOutcome(isMulti: bool, resources: seq<string>, answers: seq<Option<string>>): OpResult
    requires |answers| == |resources|
  {
    if isMulti then
      var fs := Failures(resources, answers);
      if fs == [] then Returned(true) else Threw(MultiError(fs))
    else
      match FirstFailure(answers)
      case None => Returned(true)
      case Some(k) => Threw(SingleError(Failure(resources[k], answers[k].value)))
  }

  /** A single operation whose first failure is at i throws that failure
      after i + 1 deletes. */
  lemma SingleOutcomeAt(resources: seq<string>, answers: seq<Option<string>>, i: nat)
    requires |answers| == |resources| && i < |answers| && answers[i].Some?
    requires forall j :: 0 <= j < i ==> answers[j].None?
    ensures DeleteOutcome(false, resources, answers) == Threw(SingleError(Failure(resources[i], answers[i].value)))
    ensures AttemptCount(false, answers) == i + 1
  {
    FirstFailureAt(answers, i);
  }

  /** A loop that ran to its end attempted every resource; it fails exactly
      with the collected exceptions of a multi operation. */
  lemma OutcomeAfterLoop(isMulti: bool, resources: seq<string>, answers: seq<Option<string>>)
    requires |answers| == |resources|
    requires !isMulti ==> forall j :: 0 <= j < |answers| ==> answers[j].None?
    ensures AttemptCount(isMulti, answers) == |resources|
    ensures DeleteOutcome(isMulti, resources, answers) ==
              var fs := Failures(resources, answers); if fs == [] then Returned(true) else Threw(MultiError(fs))
  {
  }

  /** How many deletes are attempted: all of them in a multi operation, up
      to and including the first failure in a single one. */
  function AttemptCount(isMulti: bool, answers: seq<Option<string>>): (n: nat)
    ensures n <= |answers|
  {
    if isMulti then |answers|
    else match FirstFailure(answers)
      case None => |answers|
      case Some(k) => k + 1
  }

  /** The deletes of the resources, in order, all with one mode. */
  function Attempts(resources: seq<string>, mode: DeleteMode): (a: seq<Attempt>)
    ensures |a| == |resources|
    ensures forall i :: 0 <= i < |resources| ==> a[i] == Attempt(resources[i], mode)
  {
    seq(|resources|, i requires 0 <= i < |resources| => Attempt(resources[i], mode))
  }

  /** In both modes the operation succeeds exactly when every delete does,
      and it never returns false after the loop. */
  lemma DeleteSucceedsIffAllDeleted(isMulti: bool, resources: seq<string>, answers: seq<Option<string>>)
    requires |answers| == |resources|
    ensures DeleteOutcome(isMulti, resources, answers) != Returned(false)
    ensures DeleteOutcome(isMulti, resources, answers) == Returned(true) <==>
              forall j :: 0 <= j < |answers| ==> answers[j].None?
  {
    FailuresEmpty(resources, answers);
  }

  /** The first exception a multi operation collects is the one a single
      operation throws. */
  /** A failure at k is still the first failure of every prefix that
      contains it. */
  lemma FirstFailureOfPrefix(answers: seq<Option<string>>, n: nat, k: nat)
    requires k < n <= |answers| && FirstFailure(answers) == Some(k)
    ensures FirstFailure(answers[..n]) == Some(k)
  {
    var prefix := answers[..n];
    assert prefix[k] == answers[k];
    assert forall j :: 0 <= j < k ==> prefix[j] == answers[j];
  }

  lemma {:induction false} FirstCollectedIsFirstFailure(resources: seq<string>, answers: seq<Option<string>>, k: nat)
    requires |answers| == |resources|
    requires FirstFailure(answers) == Some(k)
    ensures Failures(resources, answers) != []
    ensures Failures(resources, answers)[0] == Failure(resources[k], answers[k].value)
    decreases |resources|
  {
    var n := |resources| - 1;
    var rs, ans := resources[..n], answers[..n];
    var last := if answers[n].Some? then [Failure(resources[n], answers[n].value)] else [];
    assert Failures(resources, answers) == Failures(rs, ans) + last;
    if k < n {
      FirstFailureOfPrefix(answers, n, k);
      FirstCollectedIsFirstFailure(rs, ans, k);
      assert rs[k] == resources[k] && ans[k] == answers[k];
    } else {
      assert forall j :: 0 <= j < n ==> ans[j] == answers[j];
      FailuresEmpty(rs, ans);
    }
  }

  /** Single and multi operations agree on the first failure. */
  lemma ModesAgreeOnFirstFailure(resources: seq<string>, answers: seq<Option<string>>)
    requires |answers| == |resources|
    ensures DeleteOutcome(true, resources, answers).Threw? <==> DeleteOutcome(false, resources, answers).Threw?
    ensures DeleteOutcome(false, resources, answers).Threw? ==>
              DeleteOutcome(true, resources, answers).error.failures[0] == DeleteOutcome(false, resources, answers).error.failure
  {
    match FirstFailure(answers)
    case None => FailuresEmpty(resources, answers);
    case Some(k) => FirstCollectedIsFirstFailure(resources, answers, k);
  }

  // ---------------------------------------------------------------------
  // Relations listing
  // ---------------------------------------------------------------------

  /** One resource of the delete helper with the relations its deletion
      breaks. */
  datatype Entry = Entry(resource: string, relations: seq<string>)

  /** The rows the listing needs: one per resource plus one per relation. */
  function RowTotal(entries: seq<Entry>): nat
  {
    if entries == [] then 0
    else RowTotal(entries[..|entries| - 1]) + 1 + |entries[|entries| - 1].relations|
  }

  lemma {:induction false} RowTotalPrefix(entries: seq<Entry>, n: nat)
    requires n <= |entries|
    ensures RowTotal(entries[..n]) <= RowTotal(entries)
    decreases |entries|
  {
    if n < |entries| {
      var m := |entries| - 1;
      assert entries[..m][..n] == entries[..n];
      RowTotalPrefix(entries[..m], n);
    } else {
      assert entries[..n] == entries;
    }
  }

  /** The counting loop of buildRelations, which stops as soon as more than
      six rows are counted: it decides "more than six rows" exactly, and
      counts them all when there are at most six. */
  method CountRows(entries: seq<Entry>) returns (rows: nat)
    ensures rows > 6 <==> RowTotal(entries) > 6
    ensures RowTotal(entries) <= 6 ==> rows == RowTotal(entries)
    ensures rows <= RowTotal(entries)
  {
    rows := 0;
    var i := 0;
    while i < |entries|
      invariant 0 <= i <= |entries|
      invariant rows == RowTotal(entries[..i])
      invariant i < |entries| ==> rows <= 6
    {
      assert entries[..i + 1][..i] == entries[..i];
      rows := rows + 1;
      rows := rows + |entries[i].relations|;
      i := i + 1;
      if rows > 6 {
        break;
      }
    }
    RowTotalPrefix(entries, i);
    if i == |entries| {
      assert entries[..i] == entries;
    }
  }

  /** The foldable entry emitted for one resource, with its HTML id number. */
  datatype Foldable = Foldable(resource: string, id: int)

  /** What buildRelations produces for a non-empty helper: whether the list
      needs more than six rows (which selects the padding) and the entries. */
  datatype RelationsView = RelationsView(manyRows: bool, entries: seq<Foldable>)

  function Keys(entries: seq<Entry>): (ks: seq<string>)
    ensures |ks| == |entries|
    ensures forall i :: 0 <= i < |entries| ==> ks[i] == entries[i].resource
  {
    seq(|entries|, i requires 0 <= i < |entries| => entries[i].resource)
  }

  /** buildRelations over the helper's contents: nothing for an empty
      helper; otherwise the row decision and one entry per resource, in
      String order, numbered 0, 1, 2, ... */
  method RenderRelations(entries: seq<Entry>) returns (r: Option<RelationsView>)
    ensures r.None? <==> entries == []
    ensures r.Some? ==> (r.value.manyRows <==> RowTotal(entries) > 6)
    ensures r.Some? ==> var names := SortStrings(Keys(entries));
      |r.value.entries| == |entries| &&
      forall i :: 0 <= i < |r.value.entries| ==> r.value.entries[i] == Foldable(names[i], i)
  {
    if entries == [] {
      return None;
    }
    var rows := CountRows(entries);
    var names := SortStrings(Keys(entries));
    var listing: seq<Foldable> := [];
    var id := 0;
    while id < |names|
      invariant 0 <= id <= |names|
      invariant |listing| == id
      invariant forall i :: 0 <= i < id ==> listing[i] == Foldable(names[i], i)
    {
      listing := listing + [Foldable(names[id], id)];
      id := id + 1;
    }
    r := Some(RelationsView(rows > 6, listing));
  }

  // ---------------------------------------------------------------------
  // The dialog object
  // ---------------------------------------------------------------------

  /** A CmsDeleteResourcesHelper: built for one sibling flag, it holds the
      resources whose deletion breaks relations. */
  datatype Helper = Helper(deleteSiblings: bool, entries: seq<Entry>)

  /** The page actionDelete leads to. */
  datatype Page =
    | Closed(reloadParentOf: Option<string>)   // actionCloseDialog, reloading the tree at the parent of this resource
    | WaitScreen                                // the "please wait" screen
    | ErrorPage(cause: Cause)                   // includeErrorpage

  datatype Cause = ReadFailed | DeleteFailed(error: DeleteError) | NoResource

  class DeleteDialog {
    /** isMultiOperation() and getResourceList(). */
    const isMulti: bool
    const resources: seq<string>
    /** What CmsDeleteResourcesHelper finds for the resource list, given the
        sibling flag. */
    const brokenRelations: bool -> seq<Entry>

    var paramAction: Option<string>
    /** m_deleteSiblings. */
    var paramDeleteSiblings: Option<string>
    var paramDialogtype: Option<string>
    var action: Action
    /** m_helper. */
    var helper: Option<Helper>
    /** How many helpers have been built. */
    ghost var builds: nat

    /** A cached helper was built for the current parameter. */
    ghost predicate Valid()
      reads this`helper, this`paramDeleteSiblings
    {
      helper.Some? ==> helper.value == Helper(ParseBoolean(paramDeleteSiblings), brokenRelations(ParseBoolean(paramDeleteSiblings)))
    }

    constructor (isMulti: bool, resources: seq<string>, brokenRelations: bool -> seq<Entry>)
      ensures Valid()
      ensures this.isMulti == isMulti && this.resources == resources && this.brokenRelations == brokenRelations
      ensures paramAction == None && paramDeleteSiblings == None && paramDialogtype == None
      ensures action == ActionDefault && helper == None && builds == 0
    {
      this.isMulti := isMulti;
      this.resources := resources;
      this.brokenRelations := brokenRelations;
      paramAction, paramDeleteSiblings, paramDialogtype := None, None, None;
      action, helper, builds := ActionDefault, None, 0;
    }

    /** setParamDeleteSiblings: stores the value and drops the helper. */
    method SetParamDeleteSiblings(value: Option<string>)
      modifies this`paramDeleteSiblings, this`helper
      ensures Valid()
      ensures paramDeleteSiblings == value && helper == None
    {
      paramDeleteSiblings := value;
      helper := None;
    }

    /** getHelper: builds the helper for the current parameter on first use
        and returns the cached one afterwards. */
    method GetHelper() returns (h: Helper)
      requires Valid()
      modifies this`helper, this`builds
      ensures Valid()
      ensures h == Helper(ParseBoolean(paramDeleteSiblings), brokenRelations(ParseBoolean(paramDeleteSiblings)))
      ensures helper == Some(h)
      ensures builds == if old(helper).Some? then old(builds) else old(builds) + 1
    {
      if helper == None {
        var flag := ParseBoolean(paramDeleteSiblings);
        helper := Some(Helper(flag, brokenRelations(flag)));
        builds := builds + 1;
      }
      h := helper.value;
    }

    /** initWorkplaceRequestValues: the request's parameters are filled in
        through the setters; a missing sibling parameter gets the user's
        default mode; without write permission the action becomes cancel;
        the dialog type is "delete" and the action is chosen. */
    method InitWorkplaceRequestValues(requestAction: Option<string>, requestDeleteSiblings: Option<string>,
                                      userMode: DeleteMode, canWrite: bool)
      modifies this`paramAction, this`paramDeleteSiblings, this`helper, this`paramDialogtype, this`action
      ensures Valid() && helper == None
      ensures paramDeleteSiblings == if requestDeleteSiblings.Some? then requestDeleteSiblings else Some(DefaultParam(userMode))
      ensures paramAction == if canWrite then requestAction else Some(DIALOG_CANCEL)
      ensures paramDialogtype == Some(DIALOG_TYPE)
      ensures action == ChooseAction(requestAction, canWrite)
    {
      paramAction := requestAction;
      SetParamDeleteSiblings(requestDeleteSiblings);
      if paramDeleteSiblings == None {
        SetParamDeleteSiblings(Some(DefaultParam(userMode)));
      }
      if !canWrite {
        paramAction := Some(DIALOG_CANCEL);
      }
      paramDialogtype := Some(DIALOG_TYPE);
      if paramAction == Some(DIALOG_TYPE) {
        action := Action.ActionDelete;
      } else if paramAction == Some(DIALOG_WAIT) {
        action := ActionWait;
      } else if paramAction == Some(DIALOG_CANCEL) {
        action := ActionCancel;
      } else {
        action := ActionDefault;
      }
    }

    /** performDialogOperation with isOperationOnFolder() = isFolder and
        answers[k] the exception (if any) of the k-th delete: the early
        "please wait" return deletes nothing; otherwise the resources are
        deleted in order with the sibling option of the parameter, a single
        operation stopping at the first failure. */
    method PerformDialogOperation(isFolder: bool, answers: seq<Option<string>>) returns (r: OpResult, attempted: seq<Attempt>)
      requires |answers| == |resources|
      ensures ShowsWaitFirst(isMulti, isFolder, paramAction) ==> r == Returned(false) && attempted == []
      ensures !ShowsWaitFirst(isMulti, isFolder, paramAction) ==>
                r == DeleteOutcome(isMulti, resources, answers) &&
                attempted == Attempts(resources[..AttemptCount(isMulti, answers)], DeleteOption(paramDeleteSiblings))
    {
      if (isMulti || isFolder) && paramAction != Some(DIALOG_WAIT) {
        return Returned(false), [];
      }
      r, attempted := DeleteResources(DeleteOption(paramDeleteSiblings), answers);
    }

    /** The loop of performDialogOperation and its final check: every
        resource is deleted in turn with the given option; a single operation
        rethrows the first exception, a multi operation collects them all and
        throws them together at the end. */
    method DeleteResources(mode: DeleteMode, answers: seq<Option<string>>) returns (r: OpResult, attempted: seq<Attempt>)
      requires |answers| == |resources|
      ensures r == DeleteOutcome(isMulti, resources, answers)
      ensures attempted == Attempts(resources[..AttemptCount(isMulti, answers)], mode)
    {
      attempted := [];
      var collected: seq<Failure> := [];
      var i := 0;
      while i < |resources|
        invariant 0 <= i <= |resources|
        invariant |attempted| == i
        invariant forall j :: 0 <= j < i ==> attempted[j] == Attempt(resources[j], mode)
        invariant collected == Failures(resources[..i], answers[..i])
        invariant !isMulti ==> forall j :: 0 <= j < i ==> answers[j].None?
      {
        FailuresStep(resources, answers, i);
        attempted := attempted + [Attempt(resources[i], mode)];
        if answers[i].Some? {
          var e := Failure(resources[i], answers[i].value);
          if isMulti {
            collected := collected + [e];
          } else {
            SingleOutcomeAt(resources, answers, i);
            assert attempted == Attempts(resources[..i + 1], mode);
            return Threw(SingleError(e)), attempted;
          }
        }
        i := i + 1;
      }
      assert resources[..i] == resources && answers[..i] == answers;
      assert attempted == Attempts(resources, mode);
      OutcomeAfterLoop(isMulti, resources, answers);
      if collected != [] {
        return Threw(MultiError(collected)), attempted;
      }
      r := Returned(true);
    }

    /** actionDelete: reads whether a single resource is a folder, runs the
        operation and closes the dialog (reloading the tree for a multi
        operation or a folder), shows the wait screen, or shows the error
        page for anything thrown, including the missing first resource. */
    method ActionDelete(folderRead: Option<bool>, answers: seq<Option<string>>) returns (page: Page, attempted: seq<Attempt>)
      requires |answers| == |resources|
      ensures !isMulti && folderRead == None ==> page == ErrorPage(ReadFailed) && attempted == []
      ensures isMulti || folderRead.Some? ==>
        var isFolder := !isMulti && folderRead.value;
        if ShowsWaitFirst(isMulti, isFolder, paramAction) then page == WaitScreen && attempted == []
        else
          attempted == Attempts(resources[..AttemptCount(isMulti, answers)], DeleteOption(paramDeleteSiblings)) &&
          match DeleteOutcome(isMulti, resources, answers)
          case Threw(e) => page == ErrorPage(DeleteFailed(e))
          case Returned(_) =>
            page == if !(isMulti || isFolder) then Closed(None)
                    else if resources == [] then ErrorPage(NoResource)
                    else Closed(Some(resources[0]))
    {
      var isFolder := false;
      if !isMulti {
        if folderRead == None {
          return ErrorPage(ReadFailed), [];
        }
        isFolder := folderRead.value;
      }
      var r;
      r, attempted := PerformDialogOperation(isFolder, answers);
      DeleteSucceedsIffAllDeleted(isMulti, resources, answers);
      match r
      case Threw(e) =>
        page := ErrorPage(DeleteFailed(e));
      case Returned(done) =>
        if !done {
          page := WaitScreen;
        } else if isMulti || isFolder {
          if resources == [] {
            page := ErrorPage(NoResource);
          } else {
            page := Closed(Some(resources[0]));
          }
        } else {
          page := Closed(None);
        }
    }

    /** buildRelations: fetches the (possibly cached) helper and renders
        its contents. */
    method BuildRelations() returns (r: Option<RelationsView>)
      requires Valid()
      modifies this`helper, this`builds
      ensures Valid() && helper.Some?
      ensures r.None? <==> brokenRelations(ParseBoolean(paramDeleteSiblings)) == []
      ensures r.Some? ==> (r.value.manyRows <==> RowTotal(brokenRelations(ParseBoolean(paramDeleteSiblings))) > 6)
      ensures r.Some? ==> var names := SortStrings(Keys(brokenRelations(ParseBoolean(paramDeleteSiblings))));
        |r.value.entries| == |names| &&
        forall i :: 0 <= i < |r.value.entries| ==> r.value.entries[i] == Foldable(names[i], i)
      ensures builds == if old(helper).Some? then old(builds) else old(builds) + 1
    {
      var h := GetHelper();
      r := RenderRelations(h.entries);
    }
  }

  /** Changing the sibling parameter makes the next getHelper build a new
      helper for the new flag; asking again reuses it. */
  method HelperFollowsParameter(brokenRelations: bool -> seq<Entry>) returns (first: Helper, second: Helper, third: Helper, ghost builds: nat)
    ensures first == Helper(false, brokenRelations(false))
    ensures second == Helper(true, brokenRelations(true)) && third == second
    ensures builds == 2
  {
    var d := new DeleteDialog(false, ["/index.html"], brokenRelations);
    d.SetParamDeleteSiblings(Some("false"));
    first := d.GetHelper();
    d.SetParamDeleteSiblings(Some("TRUE"));
    second := d.GetHelper();
    third := d.GetHelper();
    builds := d.builds;
  }
}
