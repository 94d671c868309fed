/** The client-side form container of the GWT workplace (CmsForm): a registry
    of form fields in insertion order, the initial value of each field, the
    reset observers and the "Enter pressed" flag, together with what the form
    asks of its collaborators (the hosting dialog, the submit handler, the
    reset observers and the validation controller), recorded as a log. */
module Form {
  import opened Common

  /** I_CmsFormField.ValidationStatus. */
  datatype Status = Unknown | Valid | Invalid

  /** A CmsValidationResult as it reaches the form: an optional replacement
      value (hasNewValue() holds when it is present) and an optional error
      message. */
  datatype ValidationResult = ValidationResult(newValue: Option<string>, errorMessage: Option<string>)

  /** Identity of a registered I_CmsFormResetHandler. */
  type HandlerId = nat

  /** GWT's KeyCodes.KEY_ENTER. */
  const KEY_ENTER: int := 13

  /** One call from the form to a collaborator. */
  datatype Effect =
    | StartValidation(ids: seq<string>, submitOnSuccess: bool)  // a CmsValidationController is started
    | SetOkEnabled(enabled: bool)                                // I_CmsFormDialog.setOkButtonEnabled
    | CloseDialog                                                // I_CmsFormDialog.closeDialog
    | Submit(values: map<string, Option<string>>)                // I_CmsFormHandler.onSubmitForm
    | NotifyReset(handler: HandlerId)                            // I_CmsFormResetHandler.onResetForm
    | Blur(field: string)                                        // I_CmsHasBlur.blur

  /** Every submission is immediately preceded by closing the dialog. */
  ghost predicate SubmitFollowsClose(log: seq<Effect>)
  {
    forall i :: 0 <= i < |log| && log[i].Submit? ==> i > 0 && log[i - 1] == CloseDialog
  }

  lemma SubmitFollowsCloseAppend(a: seq<Effect>, b: seq<Effect>)
    requires SubmitFollowsClose(a) && SubmitFollowsClose(b)
    ensures SubmitFollowsClose(a + b)
  {
    forall i | 0 <= i < |a + b| && (a + b)[i].Submit?
      ensures i > 0 && (a + b)[i - 1] == CloseDialog
    {
      if i >= |a| {
        assert b[i - |a|].Submit?;
      }
    }
  }

  /** The calls made to the reset observers, one per registration, in
      registration order. */
  function Notifications(hs: seq<HandlerId>): (r: seq<Effect>)
    ensures |r| == |hs|
    ensures forall i :: 0 <= i < |hs| ==> r[i] == NotifyReset(hs[i])
  {
    seq(|hs|, i requires 0 <= i < |hs| => NotifyReset(hs[i]))
  }

  // ---------------------------------------------------------------------
  // The observable state of the fields, as values
  // ---------------------------------------------------------------------

  /** What a field shows: its widget's value and error message, and the
      field's validation status. */
  datatype FieldView = FieldView(value: Option<string>, error: Option<string>, status: Status)

  type FieldViews = map<string, FieldView>

  /** The value map collectValues builds: every registered id, mapped to the
      current widget value (null included). */
  function Values(v: FieldViews): (m: map<string, Option<string>>)
    ensures m.Keys == v.Keys
    ensures forall id :: id in m ==> m[id] == v[id].value
  {
    map id | id in v :: v[id].value
  }

  /** noFieldsInvalid over the given fields: no field has status invalid
      (unknown does not count as invalid). */
  ghost predicate NoneInvalid(v: FieldViews)
  {
    forall id :: id in v ==> v[id].status != Invalid
  }

  /** The fields after reset: each shows its initial value, no error and
      status unknown. */
  ghost function ResetAll(v: FieldViews, initial: map<string, Option<string>>): (r: FieldViews)
    requires v.Keys <= initial.Keys
  {
    map id | id in v :: FieldView(initial[id], None, Unknown)
  }

  /** The fields after updateFieldValidationStatus(id, r). */
  ghost function Apply(v: FieldViews, id: string, r: ValidationResult): (w: FieldViews)
    requires id in v
  {
    var value := if r.newValue.Some? then r.newValue else v[id].value;
    v[id := FieldView(value, r.errorMessage, if r.errorMessage == None then Valid else Invalid)]
  }

  /** The fields after the value-change handler of field id: its status is
      unknown until it is validated again; value and error stay. */
  ghost function Unvalidate(v: FieldViews, id: string): (w: FieldViews)
    requires id in v
  {
    v[id := v[id].(status := Unknown)]
  }

  /** Reset restores every field's snapshot, clears every error and leaves
      no field invalid, so the OK button is enabled. */
  lemma ResetRestoresSnapshots(v: FieldViews, initial: map<string, Option<string>>)
    requires v.Keys == initial.Keys
    ensures Values(ResetAll(v, initial)) == initial
    ensures NoneInvalid(ResetAll(v, initial))
    ensures forall id :: id in v ==> ResetAll(v, initial)[id].error == None
  {
  }

  /** Reset depends only on the snapshots: whatever edits and validation
      results came before it are discarded. */
  lemma ResetForgetsEdits(v: FieldViews, initial: map<string, Option<string>>, id: string, x: Option<string>, r: ValidationResult)
    requires v.Keys <= initial.Keys && id in v
    ensures ResetAll(v[id := v[id].(value := x)], initial) == ResetAll(v, initial)
    ensures ResetAll(Unvalidate(v, id), initial) == ResetAll(v, initial)
    ensures ResetAll(Apply(v, id, r), initial) == ResetAll(v, initial)
  {
  }

  /** Applying a validation result: the status is valid iff the result has no
      error message; the value is replaced only by a new value; no other
      field changes. */
  lemma ApplyResult(v: FieldViews, id: string, r: ValidationResult)
    requires id in v
    ensures Apply(v, id, r).Keys == v.Keys
    ensures Apply(v, id, r)[id].status == Valid <==> r.errorMessage == None
    ensures Apply(v, id, r)[id].status == Invalid <==> r.errorMessage != None
    ensures Apply(v, id, r)[id].error == r.errorMessage
    ensures r.newValue == None ==> Apply(v, id, r)[id].value == v[id].value
    ensures r.newValue != None ==> Apply(v, id, r)[id].value == r.newValue
    ensures forall other :: other in v && other != id ==> Apply(v, id, r)[other] == v[other]
  {
  }

  /** After a validation result, the OK button may be enabled exactly when
      that result had no error and no other field is invalid. */
  lemma ApplyAndOkButton(v: FieldViews, id: string, r: ValidationResult)
    requires id in v
    ensures NoneInvalid(Apply(v, id, r)) <==>
              r.errorMessage == None && forall other :: other in v && other != id ==> v[other].status != Invalid
  {
    var w := Apply(v, id, r);
    if r.errorMessage != None {
      assert w[id].status == Invalid;
    } else {
      assert w[id].status == Valid;
    }
    assert forall other :: other in v && other != id ==> w[other] == v[other];
  }

  /** A value change never makes a field invalid and never changes the
      collected values, so by itself it never disables OK. */
  lemma UnvalidateKeepsNoneInvalid(v: FieldViews, id: string)
    requires id in v && NoneInvalid(v)
    ensures NoneInvalid(Unvalidate(v, id))
    ensures Values(Unvalidate(v, id)) == Values(v)
  {
  }

  // ---------------------------------------------------------------------
  // The objects
  // ---------------------------------------------------------------------

  /** An I_CmsFormField together with the I_CmsFormWidget it owns. */
  class FormField {
    const id: string
    /** The widget implements HasValueChangeHandlers. */
    const changeEvents: bool
    /** The widget implements HasKeyPressHandlers. */
    const keyEvents: bool
    /** The widget implements I_CmsHasBlur. */
    const blurs: bool
    /** getFormValueAsString / setFormValueAsString. */
    var value: Option<string>
    /** setErrorMessage. */
    var error: Option<string>
    var status: Status

    constructor (id: string, value: Option<string>, changeEvents: bool, keyEvents: bool, blurs: bool)
      ensures this.id == id && this.value == value && error == None && status == Unknown
      ensures this.changeEvents == changeEvents && this.keyEvents == keyEvents && this.blurs == blurs
    {
      this.id := id;
      this.value := value;
      this.changeEvents := changeEvents;
      this.keyEvents := keyEvents;
      this.blurs := blurs;
      error := None;
      status := Unknown;
    }

    function View(): FieldView
      reads this
    {
      FieldView(value, error, status)
    }

    /** setFormValueAsString: a program or the user puts a value into the
        widget; the value-change event it may fire is delivered separately. */
    method SetFormValue(x: Option<string>)
      modifies this`value
      ensures value == x
    {
      value := x;
    }
  }

  /** The values of m under the keys ids, in that order. */
  function Lookup<K, V>(m: map<K, V>, ids: seq<K>): (vs: seq<V>)
    requires forall i :: 0 <= i < |ids| ==> ids[i] in m
    ensures |vs| == |ids|
    ensures forall i :: 0 <= i < |ids| ==> vs[i] == m[ids[i]]
  {
    seq(|ids|, i requires 0 <= i < |ids| => m[ids[i]])
  }

  /** The form's registry is consistent: each field is registered under its
      own id, the insertion order lists every registered id exactly once, and
      every registered id has an initial value. */
  ghost predicate Registry(fields: map<string, FormField>, order: seq<string>, initial: map<string, Option<string>>)
  {
    && (forall id :: id in fields ==> fields[id].id == id)
    && (forall i, j :: 0 <= i < j < |order| ==> order[i] != order[j])
    && (forall id :: id in fields <==> id in order)
    && initial.Keys == fields.Keys
  }

  /** Registering a field keeps the registry consistent; a new id goes to
      the end of the order, a known id keeps its place. */
  lemma RegistryAdd(fields: map<string, FormField>, order: seq<string>, initial: map<string, Option<string>>, f: FormField, v: Option<string>)
    requires Registry(fields, order, initial)
    ensures Registry(fields[f.id := f], if f.id in fields then order else order + [f.id], initial[f.id := v])
  {
    if f.id !in fields {
      assert forall i :: 0 <= i < |order| ==> order[i] != f.id;
    }
  }

  class CmsForm {
    /** m_fields: field id to field; `order` is the LinkedHashMap's
        insertion order of its keys. */
    var fields: map<string, FormField>
    var order: seq<string>
    /** m_initialValues. */
    var initialValues: map<string, Option<string>>
    /** m_resetHandlers. */
    var resetHandlers: seq<HandlerId>
    /** m_pressedEnter. */
    var pressedEnter: bool
    /** Deferred commands queued by Enter that have not yet run. */
    var pendingEnterResets: nat
    /** The calls the form has made to its collaborators, oldest first. */
    var effects: seq<Effect>
    /** Fields whose widgets got a value-change / key-press handler from
        addField; a field replaced by a later one with the same id keeps its
        handlers. */
    ghost var changeListeners: seq<FormField>
    ghost var keyListeners: seq<FormField>

    ghost predicate Valid()
      reads this`fields, this`order, this`initialValues, this`effects
    {
      Registry(fields, order, initialValues) && SubmitFollowsClose(effects)
    }

    ghost function Views(): FieldViews
      reads this`fields, fields.Values
    {
      map id | id in fields :: fields[id].View()
    }

    /** No registered field has status invalid. */
    ghost predicate NoFieldInvalid()
      reads this`fields, fields.Values
    {
      forall id :: id in fields ==> fields[id].status != Invalid
    }

    /** The form-level predicate is noFieldsInvalid of the field views. */
    lemma NoFieldInvalidViews()
      ensures NoFieldInvalid() <==> NoneInvalid(Views())
    {
      var v := Views();
      if NoFieldInvalid() {
        forall id | id in v ensures v[id].status != Invalid {
          assert v[id] == fields[id].View();
        }
      }
      if NoneInvalid(v) {
        forall id | id in fields ensures fields[id].status != Invalid {
          assert v[id] == fields[id].View();
        }
      }
    }

    /** m_fields.values(), in insertion order. */
    function FieldList(): (fs: seq<FormField>)
      reads this`fields, this`order, this`initialValues, this`effects
      requires Valid()
      ensures |fs| == |order|
      ensures forall i :: 0 <= i < |order| ==> fs[i] == fields[order[i]]
    {
      Lookup(fields, order)
    }

    /** The loop over m_fields.values() sees exactly the registered fields. */
    lemma NoneInvalidByList(fs: seq<FormField>)
      requires Valid() && fs == FieldList()
      ensures NoFieldInvalid() <==> forall i :: 0 <= i < |fs| ==> fs[i].status != Invalid
    {
      if NoFieldInvalid() {
        forall i | 0 <= i < |order| ensures fs[i].status != Invalid {
          assert order[i] in fields;
        }
      }
      if forall i :: 0 <= i < |order| ==> fs[i].status != Invalid {
        forall id | id in fields ensures fields[id].status != Invalid {
          var i :| 0 <= i < |order| && order[i] == id;
          assert fs[i] == fields[id];
        }
      }
    }

    constructor ()
      ensures Valid()
      ensures fields == map[] && order == [] && initialValues == map[] && resetHandlers == []
      ensures !pressedEnter && pendingEnterResets == 0 && effects == []
      ensures changeListeners == [] && keyListeners == []
    {
      fields, order, initialValues, resetHandlers := map[], [], map[], [];
      pressedEnter, pendingEnterResets, effects := false, 0, [];
      changeListeners, keyListeners := [], [];
    }

    /** addField(formField): snapshots the widget's value as the field's
        initial value, attaches the event handlers the widget supports and
        registers the field under its id; an id registered before keeps its
        place in the order and now maps to the new field. */
    method AddField(f: FormField)
      requires Valid()
      modifies this`fields, this`order, this`initialValues, this`changeListeners, this`keyListeners
      ensures Valid()
      ensures fields == old(fields)[f.id := f]
      ensures initialValues == old(initialValues)[f.id := f.value]
      ensures order == if f.id in old(fields) then old(order) else old(order) + [f.id]
      ensures changeListeners == if f.changeEvents then old(changeListeners) + [f] else old(changeListeners)
      ensures keyListeners == if f.keyEvents then old(keyListeners) + [f] else old(keyListeners)
    {
      var snapshot := f.value;
      RegistryAdd(fields, order, initialValues, f, snapshot);
      var newOrder := if f.id in fields then order else order + [f.id];
      if f.changeEvents {
        changeListeners := changeListeners + [f];
      }
      if f.keyEvents {
        keyListeners := keyListeners + [f];
      }
      fields, order, initialValues := fields[f.id := f], newOrder, initialValues[f.id := snapshot];
    }

    /** addField(formField, initialValue): a non-null initial value is put
        into the widget first, so it becomes the snapshot; with null the
        widget's own value is snapshotted. */
    method AddFieldWithValue(f: FormField, initial: Option<string>)
      requires Valid()
      modifies f`value, this`fields, this`order, this`initialValues, this`changeListeners, this`keyListeners
      ensures Valid()
      ensures f.value == if initial.Some? then initial else old(f.value)
      ensures fields == old(fields)[f.id := f]
      ensures initialValues == old(initialValues)[f.id := f.value]
      ensures order == if f.id in old(fields) then old(order) else old(order) + [f.id]
      ensures changeListeners == if f.changeEvents then old(changeListeners) + [f] else old(changeListeners)
      ensures keyListeners == if f.keyEvents then old(keyListeners) + [f] else old(keyListeners)
    {
      if initial.Some? {
        f.SetFormValue(initial);
      }
      AddField(f);
    }

    /** addResetHandler. */
    method AddResetHandler(h: HandlerId)
      modifies this`resetHandlers
      ensures resetHandlers == old(resetHandlers) + [h]
    {
      resetHandlers := resetHandlers + [h];
    }

    /** getField(id): the field registered under id, or null. */
    function GetField(id: string): (r: Option<FormField>)
      reads this
      requires Valid()
      ensures r.Some? <==> id in order
      ensures r.Some? ==> r.value.id == id && r.value in fields.Values
    {
      if id in fields then Some(fields[id]) else None
    }

    /** collectValues(): every registered id mapped to its widget's current
        value, nulls included. */
    method CollectValues() returns (values: map<string, Option<string>>)
      requires Valid()
      ensures values.Keys == fields.Keys
      ensures forall id :: id in values ==> values[id] == fields[id].value
      ensures values == Values(Views())
    {
      values := map[];
      var i := 0;
      while i < |order|
        invariant 0 <= i <= |order|
        invariant forall id :: id in values <==> id in order[..i]
        invariant forall id :: id in values ==> id in fields && values[id] == fields[id].value
      {
        var id := order[i];
        values := values[id := fields[id].value];
        i := i + 1;
        assert order[..i] == order[..i - 1] + [id];
      }
      assert order[..i] == order;
    }

    /** noFieldsInvalid(fields). */
    method NoFieldsInvalid(fs: seq<FormField>) returns (ok: bool)
      ensures ok <==> forall i :: 0 <= i < |fs| ==> fs[i].status != Invalid
    {
      var i := 0;
      while i < |fs|
        invariant 0 <= i <= |fs|
        invariant forall j :: 0 <= j < i ==> fs[j].status != Invalid
      {
        if fs[i].status == Invalid {
          return false;
        }
        i := i + 1;
      }
      return true;
    }

    /** reset(): every field gets status unknown, its initial value and no
        error; then the dialog is asked to enable OK (the fields are now all
        not invalid); then every reset handler is called once, in
        registration order. */
    method Reset()
      requires Valid()
      modifies this`effects, fields.Values
      ensures Valid()
      ensures forall id :: id in fields ==> fields[id].View() == FieldView(initialValues[id], None, Unknown)
      ensures Views() == ResetAll(old(Views()), initialValues)
      ensures effects == old(effects) + [SetOkEnabled(true)] + Notifications(resetHandlers)
    {
      RestoreInitialValues();
      UpdateOkButton();
      NotifyResetHandlers();
    }

    /** m_formDialog.setOkButtonEnabled(noFieldsInvalid(m_fields.values())),
        as reset and both validation handlers request it. */
    method UpdateOkButton()
      requires Valid()
      modifies this`effects
      ensures Valid()
      ensures effects == old(effects) + [SetOkEnabled(NoFieldInvalid())]
    {
      var fs := FieldList();
      var enabled := NoFieldsInvalid(fs);
      NoneInvalidByList(fs);
      SubmitFollowsCloseAppend(effects, [SetOkEnabled(enabled)]);
      effects := effects + [SetOkEnabled(enabled)];
    }

    /** The loop of reset over m_fields' entries. */
    method RestoreInitialValues()
      requires Valid()
      modifies fields.Values
      ensures Valid()
      ensures Views() == ResetAll(old(Views()), initialValues)
      ensures forall id :: id in fields ==> fields[id].View() == FieldView(initialValues[id], None, Unknown)
    {
      var i := 0;
      while i < |order|
        invariant 0 <= i <= |order|
        invariant forall id :: id in fields ==>
          fields[id].View() == if id in order[..i] then FieldView(initialValues[id], None, Unknown) else old(fields[id].View())
      {
        var id := order[i];
        var f := fields[id];
        f.status := Unknown;
        f.value := initialValues[id];
        f.error := None;
        i := i + 1;
        assert order[..i] == order[..i - 1] + [id];
      }
      assert order[..i] == order;
    }

    /** The loop of reset over m_resetHandlers. */
    method NotifyResetHandlers()
      requires Valid()
      modifies this`effects
      ensures Valid()
      ensures effects == old(effects) + Notifications(resetHandlers)
    {
      var j := 0;
      while j < |resetHandlers|
        invariant 0 <= j <= |resetHandlers|
        invariant effects == old(effects) + Notifications(resetHandlers[..j])
      {
        effects := effects + [NotifyReset(resetHandlers[j])];
        j := j + 1;
      }
      assert resetHandlers[..j] == resetHandlers;
      SubmitFollowsCloseAppend(old(effects), Notifications(resetHandlers));
    }

    /** updateFieldValidationStatus(fieldId, result): looking up an id that is
        not registered throws NullPointerException before anything changes. */
    method ApplyValidationResult(id: string, r: ValidationResult) returns (thrown: bool)
      requires Valid()
      modifies fields.Values
      ensures Valid()
      ensures thrown <==> id !in fields
      ensures Views() == if thrown then old(Views()) else Apply(old(Views()), id, r)
    {
      if id !in fields {
        return true;
      }
      var f := fields[id];
      if r.newValue.Some? {
        f.value := r.newValue;
      }
      f.error := r.errorMessage;
      f.status := if r.errorMessage == None then Status.Valid else Invalid;
      thrown := false;
    }

    /** validateField(field): validation of that one field only, reported to
        the handler that never submits. */
    method ValidateField(f: FormField)
      requires Valid()
      modifies this`effects
      ensures Valid()
      ensures effects == old(effects) + [StartValidation([f.id], false)]
    {
      SubmitFollowsCloseAppend(effects, [StartValidation([f.id], false)]);
      effects := effects + [StartValidation([f.id], false)];
    }

    /** doInitialValidation(): all fields, reported to the handler that
        never submits. */
    method DoInitialValidation()
      requires Valid()
      modifies this`effects
      ensures Valid()
      ensures effects == old(effects) + [StartValidation(order, false)]
    {
      SubmitFollowsCloseAppend(effects, [StartValidation(order, false)]);
      effects := effects + [StartValidation(order, false)];
    }

    /** validateAndSubmit(): all fields, reported to the submitting handler. */
    method ValidateAndSubmit()
      requires Valid()
      modifies this`effects
      ensures Valid()
      ensures effects == old(effects) + [StartValidation(order, true)]
    {
      SubmitFollowsCloseAppend(effects, [StartValidation(order, true)]);
      effects := effects + [StartValidation(order, true)];
    }

    /** The value-change handler addField attached to field f: the field's
        status becomes unknown; then only f is validated, or, while the Enter
        flag is set, the whole form is validated and submitted. */
    method OnValueChange(f: FormField)
      requires Valid() && f in changeListeners
      modifies f`status, this`effects
      ensures Valid()
      ensures f.status == Unknown
      ensures forall id :: id in fields ==>
        fields[id].View() == if fields[id] == f then old(fields[id].View()).(status := Unknown) else old(fields[id].View())
      ensures f in fields.Values ==> Views() == Unvalidate(old(Views()), f.id)
      ensures effects == old(effects) + [if pressedEnter then StartValidation(order, true) else StartValidation([f.id], false)]
    {
      f.status := Unknown;
      if !pressedEnter {
        ValidateField(f);
      } else {
        ValidateAndSubmit();
      }
    }

    /** The key-press handler addField attached to field f: Enter sets the
        flag, blurs a widget that can lose focus (which may fire the value
        change) and queues the deferred command that clears the flag; other
        keys do nothing. */
    method OnKeyPress(f: FormField, keyCode: int)
      requires Valid() && f in keyListeners
      modifies this`pressedEnter, this`pendingEnterResets, this`effects
      ensures Valid()
      ensures keyCode == KEY_ENTER ==>
        pressedEnter && pendingEnterResets == old(pendingEnterResets) + 1 &&
        effects == old(effects) + (if f.blurs then [Blur(f.id)] else [])
      ensures keyCode != KEY_ENTER ==>
        pressedEnter == old(pressedEnter) && pendingEnterResets == old(pendingEnterResets) && effects == old(effects)
    {
      if keyCode == KEY_ENTER {
        pressedEnter := true;
        if f.blurs {
          SubmitFollowsCloseAppend(effects, [Blur(f.id)]);
          effects := effects + [Blur(f.id)];
        }
        pendingEnterResets := pendingEnterResets + 1;
      }
    }

    /** The deferred command queued by Enter runs after the events it
        provoked and clears the flag. */
    method RunDeferredEnterReset()
      requires pendingEnterResets > 0
      modifies this`pressedEnter, this`pendingEnterResets
      ensures !pressedEnter && pendingEnterResets == old(pendingEnterResets) - 1
    {
      pressedEnter := false;
      pendingEnterResets := pendingEnterResets - 1;
    }

    /** onValidationFinished of the handler that never submits: only the OK
        button state is updated, whatever the aggregate outcome. */
    method OnFieldValidationFinished(ok: bool)
      requires Valid()
      modifies this`effects
      ensures Valid()
      ensures effects == old(effects) + [SetOkEnabled(NoFieldInvalid())]
    {
      UpdateOkButton();
    }

    /** onValidationFinished of validateAndSubmit: on success the dialog is
        closed and then the collected values are submitted; on failure
        nothing is submitted, the dialog stays open and the OK button state
        is updated. */
    method OnSubmitValidationFinished(ok: bool)
      requires Valid()
      modifies this`effects
      ensures Valid()
      ensures ok ==> effects == old(effects) + [CloseDialog, Submit(Values(Views()))]
      ensures !ok ==> effects == old(effects) + [SetOkEnabled(NoFieldInvalid())]
    {
      if ok {
        var values := CollectValues();
        SubmitFollowsCloseAppend(effects, [CloseDialog, Submit(values)]);
        effects := effects + [CloseDialog, Submit(values)];
      } else {
        UpdateOkButton();
      }
    }
  }

  /** A field registered with "A", edited to "B" and reset collects as
      {"title": "A"} again. */
  method ResetScenario() returns (values: map<string, Option<string>>)
    ensures values.Keys == {"title"} && values["title"] == Some("A")
  {
    var form := new CmsForm();
    var title := new FormField("title", None, true, true, true);
    form.AddFieldWithValue(title, Some("A"));
    title.SetFormValue(Some("B"));
    form.Reset();
    values := form.CollectValues();
  }
}
