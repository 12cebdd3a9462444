/**
 * The control that makes one deletion review fail: a constraint in a disposable database, owned through a durable
 * receipt. A run may be cut off before any of its effects, and others may change the database between them.
 */
module ReviewFailure {
  import opened Options

  datatype Phase = Arming | Armed | Restoring

  datatype Target = Target(organization: string, resourceType: string, resource: string)

  /** The receipt. The constraint it owns is named by the nonce. */
  datatype Control = Control(nonce: string, request: string, target: Target, phase: Phase)

  datatype Definition = RejectsApprovalOf(request: string) | OtherDefinition(text: string)
  datatype Comment = OwnedBy(project: string, nonce: string, request: string) | OtherComment(text: string)

  datatype Constraint = Constraint(check: bool, validated: bool, definition: Definition, comment: Comment)

  datatype Request = Request(target: Target, pending: bool)

  datatype Result = Pass(armed: bool) | Blocked | CutOff

  function OwnConstraint(project: string, c: Control): Constraint {
    Constraint(true, false, RejectsApprovalOf(c.request), OwnedBy(project, c.nonce, c.request))
  }

  /** Whether a request may be given this status under a definition the session wrote. */
  predicate Admits(d: Definition, request: string, status: string)
    requires d.RejectsApprovalOf?
  {
    request != d.request || status != "approved"
  }

  /** A not yet validated check, marked as the session's, that refuses to approve this request and nothing else. */
  ghost predicate FailsOnly(project: string, nonce: string, request: string, c: Constraint) {
    && c.check && !c.validated && c.comment == OwnedBy(project, nonce, request)
    && c.definition.RejectsApprovalOf?
    && forall other, status :: Admits(c.definition, other, status) <==> !(other == request && status == "approved")
  }

  datatype Check = Absent | Present | Refuse

  /** Only no constraint at all, or exactly the owned one as it was made, is acceptable. */
  function CheckConstraints(project: string, constraints: map<string, Constraint>, control: Option<Control>): Check {
    if constraints == map[] then Absent
    else if control.Some? && constraints == map[control.value.nonce := OwnConstraint(project, control.value)] then
      Present
    else Refuse
  }

  /** A request to restore names the saved one, or none. */
  predicate Names(request: Option<string>, receipt: Option<Control>) {
    request.Some? && receipt.Some? ==> request.value == receipt.value.request
  }

  /** A temporary file while a receipt is being saved. */
  datatype File = Unfinished | Whole(control: Control)

  /** What others do between two effects: nothing, anything but touch a constraint this session named, or anything. */
  datatype Others = Quiet | Apart | Meddling

  /** A change this session made to the constraints. */
  datatype Write = Write(before: map<string, Constraint>, after: map<string, Constraint>)

  ghost predicate NamedBy(name: string, receipt: Option<Control>) {
    receipt.Some? && receipt.value.nonce == name
  }

  predicate SameOwnership(a: Control, b: Control) {
    a.nonce == b.nonce && a.request == b.request && a.target == b.target
  }

  /** There is one constraint: the one this receipt owns, as it was made. */
  ghost predicate OwnAlone(project: string, receipt: Option<Control>, constraints: map<string, Constraint>) {
    receipt.Some? && constraints.Keys == {receipt.value.nonce} &&
    FailsOnly(project, receipt.value.nonce, receipt.value.request, constraints[receipt.value.nonce])
  }

  /** The change that adds the owned constraint where there was none. */
  ghost predicate Adds(project: string, receipt: Option<Control>, w: Write) {
    w.before == map[] && OwnAlone(project, receipt, w.after)
  }

  /** The change that drops the owned constraint, unaltered and alone. */
  ghost predicate Drops(project: string, receipt: Option<Control>, w: Write) {
    OwnAlone(project, receipt, w.before) && w.after == map[]
  }

  class Session {
    const project: string
    /** Whether a pending request deletes something this session made. */
    const admitted: (string, Target) -> bool
    /** The receipt file as it reads now, and as it would read after a loss of power. */
    var receipt: Option<Control>
    var durable: Option<Control>
    var temporary: Option<File>
    /** The verification constraints in the database, by the part of the name after the common prefix. */
    var constraints: map<string, Constraint>
    var requests: map<string, Request>
    /** The names this session has drawn. */
    var names: set<string>
    /** The constraints this session added that are still there, altered or not. */
    ghost var owned: set<string>
    /** Whether others have touched a constraint under one of the names. */
    ghost var disturbed: bool
    /** Every change this session made to the constraints. */
    ghost var writes: seq<Write>

    /** A receipt, present or durable, that accounts for everything owned. */
    ghost predicate Accounts(r: Option<Control>)
      reads this
    {
      && (forall n :: n in owned ==> NamedBy(n, r))
      && (r.Some? ==> r.value.nonce in names)
      && (r.Some? && r.value.phase == Armed && !disturbed ==> r.value.nonce in owned)
    }

    /** What holds at every moment, and so after every crash and every loss of power. */
    ghost predicate Valid()
      reads this
    {
      && Accounts(receipt) && Accounts(durable) && owned <= constraints.Keys
      && (receipt.Some? && durable.Some? && receipt.value.nonce == durable.value.nonce ==>
            SameOwnership(receipt.value, durable.value))
      && (!disturbed ==>
            forall n :: n in names && n in constraints ==>
              n in owned && receipt.Some? && constraints[n] == OwnConstraint(project, receipt.value))
    }

    constructor (project: string, admitted: (string, Target) -> bool, constraints: map<string, Constraint>,
                 requests: map<string, Request>)
      ensures Valid() && receipt == None && owned == {} && !disturbed && this.constraints == constraints
    {
      this.project, this.admitted, this.constraints, this.requests := project, admitted, constraints, requests;
      receipt, durable, temporary, names, owned, disturbed, writes := None, None, None, {}, {}, false, [];
    }

    // -------------------------------------------------------------- what happens around a run

    method Elsewhere(others: Others)
      requires Valid()
      modifies this`constraints, this`requests, this`owned, this`disturbed
      ensures Valid() && owned <= old(owned)
      ensures (old(disturbed) ==> disturbed) && (!disturbed ==> owned == old(owned))
      ensures others == Quiet ==> constraints == old(constraints) && requests == old(requests)
    {
      if others == Quiet {
        return;
      }
      var changed: map<string, Constraint> := *;
      requests := *;
      if others == Apart {
        var kept := map n | n in constraints && n in names :: constraints[n];
        constraints := (changed - names) + kept;
      } else {
        ghost var left: set<string> := *;
        constraints := changed;
        owned, disturbed := owned * left * changed.Keys, true;
      }
    }

    /**
     * Power is lost: a change to the files that is not yet durable may be undone. The database keeps what it committed.
     */
    method LosePower()
      requires Valid()
      modifies this`receipt, this`durable
      ensures Valid() && receipt == durable && (receipt == old(receipt) || receipt == old(durable))
    {
      var undone: bool := *;
      if undone {
        receipt := durable;
      }
      durable := receipt;
    }

    // -------------------------------------------------------------- effects

    /**
     * Keeps the previous whole receipt until its replacement is durable: a temporary file is made, written and synced,
     * renamed over the receipt, and the directory synced. `effects` is how many of these there is time for.
     */
    method SaveReceipt(control: Control, effects: nat, others: Others) returns (done: bool, left: nat)
      requires Valid() && control.nonce in names
      requires receipt.Some? ==> SameOwnership(receipt.value, control)
      requires durable.Some? && durable.value.nonce == control.nonce ==> SameOwnership(durable.value, control)
      requires control.phase == Armed && !disturbed ==> control.nonce in owned
      modifies this`receipt, this`durable, this`temporary, this`constraints, this`requests, this`owned, this`disturbed
      ensures Valid() && owned <= old(owned)
      ensures (old(disturbed) ==> disturbed) && (!disturbed ==> owned == old(owned))
      ensures others == Quiet ==> constraints == old(constraints) && requests == old(requests)
      ensures if effects < 4 then !done && (receipt == old(receipt) || receipt == Some(control))
              else done && left == effects - 4 && receipt == durable == Some(control) && temporary == None
    {
      var written := WriteTemporary(control, effects, others);
      if !written || effects == 2 { return false, 0; }
      Rename();
      Elsewhere(others);
      if effects == 3 { return false, 0; }
      SyncDirectory();
      Elsewhere(others);
      return true, effects - 4;
    }

    method WriteTemporary(control: Control, effects: nat, others: Others) returns (done: bool)
      requires Valid()
      modifies this`temporary, this`constraints, this`requests, this`owned, this`disturbed
      ensures Valid() && owned <= old(owned)
      ensures (old(disturbed) ==> disturbed) && (!disturbed ==> owned == old(owned))
      ensures others == Quiet ==> constraints == old(constraints) && requests == old(requests)
      ensures done <==> effects >= 2
      ensures effects == 1 ==> temporary == Some(Unfinished)
      ensures done ==> temporary == Some(Whole(control))
    {
      if effects == 0 { return false; }
      temporary := Some(Unfinished);
      Elsewhere(others);
      if effects == 1 { return false; }
      temporary := Some(Whole(control));
      Elsewhere(others);
      return true;
    }

    method Rename()
      requires Valid() && temporary.Some? && temporary.value.Whole?
      requires var control := temporary.value.control;
               && control.nonce in names
               && (receipt.Some? ==> SameOwnership(receipt.value, control))
               && (durable.Some? && durable.value.nonce == control.nonce ==> SameOwnership(durable.value, control))
               && (control.phase == Armed && !disturbed ==> control.nonce in owned)
      modifies this`receipt, this`temporary
      ensures Valid() && receipt == Some(old(temporary).value.control) && temporary == None
    {
      receipt, temporary := Some(temporary.value.control), None;
    }

    method SyncDirectory()
      requires Valid()
      modifies this`durable
      ensures Valid() && durable == receipt
    {
      durable := receipt;
    }

    /** The locked transaction adds the constraint only beside no other, for a request that is still as it was. */
    method ArmTransaction(control: Control) returns (committed: bool)
      requires Valid() && receipt == durable == Some(control)
      modifies this`constraints, this`owned, this`writes
      ensures Valid()
      ensures committed <==> old(constraints) == map[] && control.request in requests &&
                             requests[control.request] == Request(control.target, true)
      ensures constraints == if committed then map[control.nonce := OwnConstraint(project, control)]
              else old(constraints)
      ensures owned == if committed then {control.nonce} else old(owned)
      ensures writes == old(writes) + if committed then [Write(old(constraints), constraints)] else []
    {
      if constraints != map[] || control.request !in requests ||
        requests[control.request] != Request(control.target, true) {
        return false;
      }
      ghost var before := constraints;
      constraints := constraints[control.nonce := OwnConstraint(project, control)];
      owned := owned + {control.nonce};
      writes := writes + [Write(before, constraints)];
      return true;
    }

    /** The locked transaction drops the constraint only if it is the owned one, unaltered and alone. */
    method RestoreTransaction(control: Control) returns (committed: bool)
      requires Valid() && receipt == durable == Some(control) && control.phase == Restoring
      modifies this`constraints, this`owned, this`writes
      ensures Valid()
      ensures committed <==> old(constraints) == map[control.nonce := OwnConstraint(project, control)]
      ensures constraints == if committed then map[] else old(constraints)
      ensures owned == if committed then {} else old(owned)
      ensures writes == old(writes) + if committed then [Write(old(constraints), constraints)] else []
    {
      if control.nonce !in constraints || constraints[control.nonce] != OwnConstraint(project, control) {
        return false;
      }
      if exists n :: n in constraints && n != control.nonce {
        return false;
      }
      assert constraints == map[control.nonce := constraints[control.nonce]];
      ghost var before := constraints;
      constraints := constraints - {control.nonce};
      owned := owned - {control.nonce};
      writes := writes + [Write(before, constraints)];
      return true;
    }

    /** Unlinks the receipt. That is not synced, so a loss of power may bring the file back. */
    method RemoveReceipt()
      requires Valid() && owned == {}
      modifies this`receipt
      ensures Valid() && receipt == None
    {
      receipt := None;
    }

    // -------------------------------------------------------------- runs

    /** What every run keeps: the receipt's nonce, request and target, as long as there is a receipt. */
    ghost predicate SameControl(before: Option<Control>)
      reads this
    {
      before.Some? && receipt.Some? ==> SameOwnership(before.value, receipt.value)
    }

    /** The request is pending, admitted and the one of the receipt, and no constraint stands in the way. */
    ghost predicate CanArm(request: string)
      reads this
    {
      && CheckConstraints(project, constraints, receipt) != Refuse
      && request in requests && requests[request].pending && admitted(request, requests[request].target)
      && (receipt.Some? ==> receipt.value.request == request && receipt.value.target == requests[request].target)
    }

    ghost predicate StillPending(control: Control)
      reads this
    {
      control.request in requests && requests[control.request] == Request(control.target, true)
    }

    /**
     * Arms the control for `request`. `nonce` names a new constraint, if one is needed; it occurs nowhere yet.
     * `effects` is how many effects there is time for.
     */
    method Arm(request: string, nonce: string, effects: nat, others: Others) returns (result: Result)
      requires Valid() && nonce !in constraints && nonce !in names
      modifies this
      ensures Valid() && SameControl(old(receipt))
      ensures result == Pass(true) || result == Blocked || result == CutOff
      ensures result == CutOff ==> effects < 9
      ensures !old(CanArm(request)) ==> result == Blocked && constraints == old(constraints) && receipt == old(receipt)
      ensures old(CanArm(request)) && others == Quiet ==>
              result == if effects < (if old(constraints) == map[] then 9 else 8) then CutOff else Pass(true)
      ensures result == Pass(true) ==>
              receipt == durable && receipt.Some? && receipt.value.phase == Armed && receipt.value.request == request
      ensures result == Pass(true) && !disturbed ==> receipt.value.nonce in owned
      ensures result == Pass(true) && others == Quiet ==>
                constraints == map[receipt.value.nonce := OwnConstraint(project, receipt.value)]
      ensures result == Pass(true) && others == Quiet ==>
                constraints.Keys == {receipt.value.nonce}
                && FailsOnly(project, receipt.value.nonce, request, constraints[receipt.value.nonce])
      ensures result == Pass(true) && others == Quiet ==>
                receipt.value.target == old(requests)[request].target
      ensures old(receipt) == None ==> receipt == None || receipt.value.nonce == nonce
      ensures old(writes) <= writes && forall k :: |old(writes)| <= k < |writes| ==> Adds(project, receipt, writes[k])
    {
      var control := Admit(request, nonce);
      if control == None {
        return Blocked;
      }
      var check := CheckConstraints(project, constraints, receipt);
      names := names + {control.value.nonce};
      result := Install(control.value, check, effects, others);
    }

    /** The control to arm, with the saved name if there is one; none if the request is refused. */
    method Admit(request: string, nonce: string) returns (control: Option<Control>)
      ensures control.Some? <==> CanArm(request)
      ensures control.Some? ==>
                request in requests &&
                var name := if receipt.Some? then receipt.value.nonce else nonce;
                control.value == Control(name, request, requests[request].target, Arming)
    {
      if receipt.Some? && receipt.value.request != request {
        return None;
      }
      var check := CheckConstraints(project, constraints, receipt);
      if check == Refuse || request !in requests || !requests[request].pending ||
        !admitted(request, requests[request].target) {
        return None;
      }
      var target := requests[request].target;
      if receipt.Some? && receipt.value.target != target {
        return None;
      }
      return Some(Control(if receipt.Some? then receipt.value.nonce else nonce, request, target, Arming));
    }

    /** Saves the receipt, adds the constraint unless the check found it, reads it back, and marks the receipt armed. */
    method Install(control: Control, check: Check, effects: nat, others: Others) returns (result: Result)
      requires Valid() && control.nonce in names && control.phase == Arming && check != Refuse
      requires receipt.Some? ==> SameOwnership(receipt.value, control)
      requires durable.Some? && durable.value.nonce == control.nonce ==> SameOwnership(durable.value, control)
      requires check == CheckConstraints(project, constraints, Some(control))
      modifies this`receipt, this`durable, this`temporary, this`constraints, this`requests, this`owned, this`disturbed,
        this`writes
      ensures Valid()
      ensures result == Pass(true) || result == Blocked || result == CutOff
      ensures result == CutOff ==> effects < 9
      ensures others == Quiet && old(StillPending(control)) ==>
              result == if effects < (if check == Present then 8 else 9) then CutOff else Pass(true)
      ensures receipt == old(receipt) || (receipt.Some? && SameOwnership(receipt.value, control))
      ensures result == Pass(true) ==> receipt == durable == Some(control.(phase := Armed))
      ensures result == Pass(true) && !disturbed ==> control.nonce in owned
      ensures result == Pass(true) && others == Quiet ==>
              constraints == map[control.nonce := OwnConstraint(project, control)]
      ensures old(writes) <= writes && |writes| <= |old(writes)| + 1
      ensures forall k :: |old(writes)| <= k < |writes| ==> Adds(project, receipt, writes[k])
    {
      Elsewhere(others);
      var done, left := SaveReceipt(control, effects, others);
      if !done { return CutOff; }
      if check == Absent {
        if left == 0 { return CutOff; }
        var committed := ArmTransaction(control);
        if !committed { return Blocked; }
        Elsewhere(others);
        left := left - 1;
      }
      if CheckConstraints(project, constraints, Some(control)) != Present {
        return Blocked;
      }
      PresentIsOwned(control);
      Elsewhere(others);
      done, left := SaveReceipt(control.(phase := Armed), left, others);
      return if done then Pass(true) else CutOff;
    }

    /** Takes the control back. Left alone and not cut off, it leaves neither constraint nor receipt. */
    method Restore(request: Option<string>, effects: nat, others: Others) returns (result: Result)
      requires Valid()
      modifies this
      ensures Valid() && SameControl(old(receipt)) && names == old(names)
      ensures result == Pass(false) || result == Blocked || result == CutOff
      ensures result == CutOff ==> effects < 6
      ensures var another := request.Some? && old(receipt).Some? && request.value != old(receipt).value.request;
              var stopped := another || old(CheckConstraints(project, constraints, receipt)) == Refuse;
              var cost := if old(receipt) == None then 0 else if old(constraints) == map[] then 5 else 6;
              && (stopped ==> result == Blocked && constraints == old(constraints) && receipt == old(receipt))
              && (!stopped && others == Quiet ==> result == if effects < cost then CutOff else Pass(false))
      ensures result == Pass(false) ==> receipt == None && owned == {}
      ensures result == Pass(false) && others == Quiet ==> constraints == map[]
      ensures old(writes) <= writes
      ensures forall k :: |old(writes)| <= k < |writes| ==> Drops(project, old(receipt), writes[k])
    {
      if !Names(request, receipt) {
        return Blocked;
      }
      var check := CheckConstraints(project, constraints, receipt);
      if check == Refuse {
        return Blocked;
      }
      if receipt == None {
        return Pass(false);
      }
      result := TakeBack(receipt.value.(phase := Restoring), check, effects, others);
    }

    /**
     * Saves the receipt as restoring, drops the constraint if the check found it, reads back, and unlinks the receipt.
     */
    method TakeBack(control: Control, check: Check, effects: nat, others: Others) returns (result: Result)
      requires Valid() && receipt.Some? && control == receipt.value.(phase := Restoring)
      requires check == CheckConstraints(project, constraints, receipt) && check != Refuse
      modifies this
      ensures Valid() && names == old(names) && (receipt.Some? ==> SameOwnership(receipt.value, control))
      ensures result == Pass(false) || result == Blocked || result == CutOff
      ensures result == CutOff ==> effects < 6
      ensures others == Quiet ==>
        result == if effects < (if check == Present then 6 else 5) then CutOff else Pass(false)
      ensures result == Pass(false) ==> receipt == None && owned == {}
      ensures result == Pass(false) && others == Quiet ==> constraints == map[]
      ensures old(writes) <= writes && |writes| <= |old(writes)| + 1
      ensures forall k :: |old(writes)| <= k < |writes| ==> Drops(project, Some(control), writes[k])
    {
      Elsewhere(others);
      var done, left := SaveReceipt(control, effects, others);
      if !done { return CutOff; }
      if check == Present {
        if left == 0 { return CutOff; }
        var committed := RestoreTransaction(control);
        if !committed { return Blocked; }
        Elsewhere(others);
        left := left - 1;
      }
      if CheckConstraints(project, constraints, Some(control)) != Absent {
        return Blocked;
      }
      Elsewhere(others);
      if left == 0 { return CutOff; }
      RemoveReceipt();
      return Pass(false);
    }

    lemma PresentIsOwned(control: Control)
      requires Valid() && receipt == Some(control) && CheckConstraints(project, constraints, receipt) == Present
      ensures !disturbed ==> control.nonce in owned
    {
    }
  }

  /** An altered constraint under the receipt's own name is refused, and so is any beside it. */
  lemma AlteredIsRefused(project: string, constraints: map<string, Constraint>, control: Control, n: string)
    requires n in constraints && (n != control.nonce || constraints[n] != OwnConstraint(project, control))
    ensures CheckConstraints(project, constraints, Some(control)) == Refuse
  {
    OnlyOwnIsAcceptable(project, constraints, Some(control));
  }

  /** The constraint is the receipt's, as it was made. */
  predicate IsOwn(project: string, control: Option<Control>, name: string, constraint: Constraint) {
    && control.Some? && name == control.value.nonce && constraint.check && !constraint.validated
    && constraint.definition == RejectsApprovalOf(control.value.request)
    && constraint.comment == OwnedBy(project, control.value.nonce, control.value.request)
  }

  /** A constraint that is foreign, altered or not alone is never acceptable, whatever the receipt says. */
  lemma OnlyOwnIsAcceptable(project: string, constraints: map<string, Constraint>, control: Option<Control>)
    ensures CheckConstraints(project, constraints, control) == Refuse <==>
            exists n :: n in constraints && !IsOwn(project, control, n, constraints[n])
    ensures CheckConstraints(project, constraints, control) == Absent <==> constraints == map[]
  {
    if forall n :: n in constraints ==> IsOwn(project, control, n, constraints[n]) {
      if n :| n in constraints {
        assert constraints == map[control.value.nonce := OwnConstraint(project, control.value)];
      }
    }
  }
}
