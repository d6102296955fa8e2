/**
 * Many concurrent requests through the auth surface, as a transition system.
 *
 * Markers and lifecycle cells are heap allocations named by addresses. An address may be handed
 * out again as soon as no live value holds it, so freshness is something to prove, not to assume.
 * The inner service may copy extension values between requests at will. What the
 * authenticator answered about a reception and what it was admitted with are part of the step.
 */
module SurfaceSteps {
  import opened Text
  import opened AuthorizationDigest
  import opened IssuerRegistry
  import opened RequestBinding

  type Address = nat
  type RequestId = nat
  type HolderId = nat
  type ThreadId = nat

  type LiveBinding = Binding<Address, Address>
  type LiveContext = VerifiedAuthContext<Address>
  type LiveExtensions = Extensions<Address, Address>

  /** One successful consumption. */
  datatype Witness = Witness(grant: Grant, presented: Presented, authenticator: AuthenticatorId)

  /** An attempt that passed every check and has yet to run its compare-and-exchange. */
  datatype Pending = Pending(binding: LiveBinding, outcome: Witness)

  /** What happened to one request that reached the inner service. */
  datatype Record = Record(
    received: Presented, admission: Admission, binding: LiveBinding, verified: Option<LiveContext>,
    witnesses: seq<Witness>, dropped: bool)
  {
    function StageOf(): Stage
    {
      if dropped then Closed else if witnesses != [] then Consumed else Active
    }
  }

  /**
   * `holders` are all the places where extension values live. `records` and the owner maps are
   * history: no step reads them to decide anything.
   */
  datatype State = State(
    holders: map<HolderId, LiveExtensions>, pending: map<ThreadId, Pending>, cells: map<Address, Stage>,
    records: map<RequestId, Record>, markerOwner: map<Address, RequestId>, cellOwner: map<Address, RequestId>)

  // ----- Admission: the decision of the service wrapper -----

  /** The context the authenticator issued, if any, and the surface of the matched entry, if any. */
  datatype Admission = Admission(
    context: Option<AuthContext>, authenticator: AuthenticatorId, surface: Option<SurfaceContext>)

  predicate ClientAllowed(allowed: set<string>, azp: Option<string>)
  {
    allowed == {} || (azp.Some? && azp.value != "" && azp.value in allowed)
  }

  /** None when the wrapper answers by itself; otherwise what it attaches before calling the inner service. */
  function Admit(reg: Registry, p: Presented, authenticated: Option<AuthContext>): (admission: Option<Admission>)
  {
    match RouteOf(reg, p.uri.path)
    case Public => Some(Admission(None, 0, None))
    case PassThrough => Some(Admission(None, 0, None))
    case Protected(entry) =>
      if authenticated.Some? && ClientAllowed(entry.allowedClientIds, authenticated.value.azp)
      then Some(Admission(authenticated, entry.authenticator, Some(entry.surface)))
      else None
    case _ => None
  }

  /** The authenticator answered, and the entry is open to every client or lists this one by a non-empty name. */
  predicate MayEnter(entry: Runtime, answer: Option<AuthContext>)
  {
    && answer.Some?
    && (entry.allowedClientIds == {}
        || exists id :: id in entry.allowedClientIds && id != "" && answer.value.azp == Some(id))
  }

  /** Who is let in, and with what: on a protected route the authenticator's own answer and the entry's surface. */
  lemma AdmittedExactly(reg: Registry, p: Presented, answer: Option<AuthContext>)
    ensures var route, admission := RouteOf(reg, p.uri.path), Admit(reg, p, answer);
      && (admission.Some? <==> Unauthenticated(route) || (route.Protected? && MayEnter(route.entry, answer)))
      && (admission.Some? && Unauthenticated(route) ==>
            admission.value.context.None? && admission.value.surface.None?)
      && (admission.Some? && route.Protected? ==>
            admission.value == Admission(answer, route.entry.authenticator, Some(route.entry.surface)))
  {
    var route := RouteOf(reg, p.uri.path);
    if route.Protected? && answer.Some? && answer.value.azp.Some? {
      assert answer.value.azp.value in route.entry.allowedClientIds ==>
        answer.value.azp == Some(answer.value.azp.value);
    }
  }

  /** A request is given a context exactly when an entry matched it. */
  predicate Paired(a: Admission)
  {
    a.context.Some? <==> a.surface.Some?
  }

  /** So asking for it of every reception leaves out none of the wrapper's. */
  lemma AdmissionsPaired(reg: Registry, p: Presented, authenticated: Option<AuthContext>)
    ensures Admit(reg, p, authenticated).Some? ==> Paired(Admit(reg, p, authenticated).value)
  {
  }

  function Attached(a: Admission, p: Presented, marker: Address, cell: Address): (ext: LiveExtensions)
  {
    var binding := BeginBinding(p, marker, cell, a.surface);
    if a.surface.None? then Extensions(Some(binding), None, None, None)
    else
      var context :=
        if a.context.None? then None
        else Some(VerifiedAuthContext(a.context.value, a.authenticator, None).BindToRequest(marker));
      Extensions(Some(binding), context, a.context, a.surface)
  }

  // ----- Liveness of addresses -----

  ghost predicate MarkerLive(s: State, a: Address)
  {
    || (exists h :: h in s.holders && s.holders[h].binding.Some? && s.holders[h].binding.value.marker == a)
    || (exists h ::
          h in s.holders && s.holders[h].verified.Some? && s.holders[h].verified.value.requestMarker == Some(a))
    || (exists t :: t in s.pending && s.pending[t].binding.marker == a)
  }

  ghost predicate CellLive(s: State, a: Address)
  {
    || (exists h :: h in s.holders && s.holders[h].binding.Some? && s.holders[h].binding.value.lifecycle == a)
    || (exists t :: t in s.pending && s.pending[t].binding.lifecycle == a)
    || (exists r :: r in s.records && !s.records[r].dropped && s.records[r].binding.lifecycle == a)
  }

  // ----- Steps -----

  datatype Step =
    | Receive(request: RequestId, holder: HolderId, presented: Presented, answer: Option<AuthContext>,
              admitted: Option<Admission>, marker: Address, cell: Address)
    | Rewrite(holder: HolderId, ext: LiveExtensions)
    | Attempt(thread: ThreadId, holder: HolderId, presented: Presented, authenticator: AuthenticatorId)
    | Exchange(thread: ThreadId)
    | DropGuard(request: RequestId)

  /** Private values can only be copied, or be contexts fresh from some authenticator; public ones are free. */
  ghost predicate Obtainable(s: State, ext: LiveExtensions)
  {
    && (ext.binding.Some? ==> exists h :: h in s.holders && s.holders[h].binding == ext.binding)
    && (ext.verified.Some? && ext.verified.value.requestMarker.Some? ==>
          exists h :: h in s.holders && s.holders[h].verified == ext.verified)
  }

  ghost predicate Enabled(s: State, step: Step)
  {
    match step
    case Receive(r, _, _, _, admitted, marker, cell) =>
      Unheld(s, r, marker, cell) && (admitted.Some? ==> Paired(admitted.value))
    case Rewrite(_, ext) => Obtainable(s, ext)
    case Attempt(t, h, _, _) => t !in s.pending && h in s.holders
    case Exchange(t) => CanExchange(s, t)
    case DropGuard(r) => r in s.records && !s.records[r].dropped
  }

  function ApplyReceive(
    s: State, r: RequestId, h: HolderId, p: Presented, admitted: Option<Admission>, marker: Address, cell: Address)
    : State
  {
    match admitted
    case None => s.(holders := s.holders - {h})
    case Some(admission) =>
      var ext := Attached(admission, p, marker, cell);
      s.(holders := s.holders[h := ext],
         cells := s.cells[cell := Active],
         records := s.records[r := Record(p, admission, ext.binding.value, ext.verified, [], false)],
         markerOwner := s.markerOwner[marker := r],
         cellOwner := s.cellOwner[cell := r])
  }

  function ApplyRewrite(s: State, h: HolderId, ext: LiveExtensions): State
  {
    s.(holders := s.holders[h := ext])
  }

  function ApplyAttempt(s: State, t: ThreadId, h: HolderId, p: Presented, authenticator: AuthenticatorId): State
    requires h in s.holders
  {
    match Check(s.holders[h], p, authenticator)
    case None => s
    case Some(grant) =>
      s.(pending := s.pending[t := Pending(s.holders[h].binding.value, Witness(grant, p, authenticator))])
  }

  /** The compare-and-exchange; on success the witness is credited to the request that owns the cell. */
  function ApplyExchange(s: State, t: ThreadId): State
    requires t in s.pending
    requires s.pending[t].binding.lifecycle in s.cells && s.pending[t].binding.lifecycle in s.cellOwner
    requires s.cellOwner[s.pending[t].binding.lifecycle] in s.records
  {
    var cell := s.pending[t].binding.lifecycle;
    var done := s.(pending := s.pending - {t});
    if s.cells[cell] != Active then done
    else
      var r := s.cellOwner[cell];
      done.(cells := s.cells[cell := Consumed],
            records := s.records[r := s.records[r].(witnesses := s.records[r].witnesses + [s.pending[t].outcome])])
  }

  function ApplyDrop(s: State, r: RequestId): State
    requires r in s.records
  {
    s.(cells := s.cells[s.records[r].binding.lifecycle := Closed],
       records := s.records[r := s.records[r].(dropped := true)])
  }

  ghost function Apply(s: State, step: Step): State
    requires Enabled(s, step)
  {
    match step
    case Receive(r, h, p, _, admitted, marker, cell) => ApplyReceive(s, r, h, p, admitted, marker, cell)
    case Rewrite(h, ext) => ApplyRewrite(s, h, ext)
    case Attempt(t, h, p, authenticator) => ApplyAttempt(s, t, h, p, authenticator)
    case Exchange(t) => ApplyExchange(s, t)
    case DropGuard(r) => ApplyDrop(s, r)
  }

  // ----- The invariant -----

  ghost predicate BindingOk(s: State, b: LiveBinding)
  {
    && b.lifecycle in s.cellOwner && s.cellOwner[b.lifecycle] in s.records
    && s.records[s.cellOwner[b.lifecycle]].binding == b
    && b.marker in s.markerOwner && s.markerOwner[b.marker] == s.cellOwner[b.lifecycle]
    && b.lifecycle in s.cells && s.cells[b.lifecycle] == s.records[s.cellOwner[b.lifecycle]].StageOf()
  }

  ghost predicate ContextOk(s: State, v: LiveContext)
  {
    v.requestMarker.Some? ==>
      && v.requestMarker.value in s.markerOwner && s.markerOwner[v.requestMarker.value] in s.records
      && s.records[s.markerOwner[v.requestMarker.value]].verified == Some(v)
  }

  ghost predicate HolderOk(s: State, ext: LiveExtensions)
  {
    && (ext.binding.Some? ==> BindingOk(s, ext.binding.value))
    && (ext.verified.Some? ==> ContextOk(s, ext.verified.value))
  }

  ghost predicate GuardOk(s: State, r: RequestId)
    requires r in s.records
  {
    var cell := s.records[r].binding.lifecycle;
    !s.records[r].dropped ==>
      && cell in s.cellOwner && s.cellOwner[cell] == r
      && cell in s.cells && s.cells[cell] == s.records[r].StageOf()
  }

  /** A witness carries what was established for this request and was presented with this request's parts. */
  predicate Faithful(rec: Record, w: Witness)
  {
    && w.grant == Grant(rec.admission.context, rec.admission.surface)
    && rec.received.Same(w.presented)
    && (rec.admission.surface.Some? ==> w.authenticator == rec.admission.authenticator)
  }

  predicate RecordOk(rec: Record)
  {
    && Paired(rec.admission)
    && Attached(rec.admission, rec.received, rec.binding.marker, rec.binding.lifecycle)
       == Extensions(Some(rec.binding), rec.verified, rec.admission.context, rec.admission.surface)
    && |rec.witnesses| <= 1
    && (forall i :: 0 <= i < |rec.witnesses| ==> Faithful(rec, rec.witnesses[i]))
  }

  ghost predicate PendingOk(s: State, p: Pending)
  {
    BindingOk(s, p.binding) && Faithful(s.records[s.cellOwner[p.binding.lifecycle]], p.outcome)
  }

  ghost predicate Inv(s: State)
  {
    && (forall h :: h in s.holders ==> HolderOk(s, s.holders[h]))
    && (forall t :: t in s.pending ==> PendingOk(s, s.pending[t]))
    && (forall r :: r in s.records ==> GuardOk(s, r))
    && (forall r :: r in s.records ==> RecordOk(s.records[r]))
  }

  // ----- Each step keeps it -----

  /** Passing the checks on live values pins the grant to the request that owns the binding. */
  lemma CheckIsFaithful(s: State, h: HolderId, p: Presented, authenticator: AuthenticatorId)
    requires Inv(s) && h in s.holders
    requires Check(s.holders[h], p, authenticator).Some?
    ensures var b := s.holders[h].binding.value;
      BindingOk(s, b) &&
      Faithful(s.records[s.cellOwner[b.lifecycle]],
               Witness(Check(s.holders[h], p, authenticator).value, p, authenticator))
  {
    var ext := s.holders[h];
    var b := ext.binding.value;
    assert HolderOk(s, ext);
    var rec := s.records[s.cellOwner[b.lifecycle]];
    assert RecordOk(rec);
    assert b == BeginBinding(rec.received, b.marker, b.lifecycle, rec.admission.surface);
    DigestDecidesHeaders(p.authorization, rec.received.authorization);
    SameExactly(b.uri, p.uri);
    if b.surface.Some? {
      assert ContextOk(s, ext.verified.value);
    }
  }

  /** All that this holder presents was made for one request, and this is how that request came in. */
  ghost predicate Belongs(s: State, ext: LiveExtensions, p: Presented, authenticator: AuthenticatorId)
  {
    && ext.binding.Some? && BindingOk(s, ext.binding.value)
    && var rec := s.records[s.cellOwner[ext.binding.value.lifecycle]];
       && rec.received.Same(p)
       && if rec.admission.surface.Some?
          then ext.verified == rec.verified && ext.surface == rec.admission.surface
               && authenticator == rec.admission.authenticator
          else ext.verified.None? && ext.auth.None? && ext.surface.None?
  }

  /** The checks pass exactly for values that belong together, whatever was copied from where. */
  lemma CheckExactly(s: State, h: HolderId, p: Presented, authenticator: AuthenticatorId)
    requires Inv(s) && h in s.holders
    ensures Check(s.holders[h], p, authenticator).Some? <==> Belongs(s, s.holders[h], p, authenticator)
  {
    var ext := s.holders[h];
    assert HolderOk(s, ext);
    if ext.binding.Some? {
      var b := ext.binding.value;
      var rec := s.records[s.cellOwner[b.lifecycle]];
      assert RecordOk(rec);
      assert b == BeginBinding(rec.received, b.marker, b.lifecycle, rec.admission.surface);
      DigestDecidesHeaders(p.authorization, rec.received.authorization);
      SameExactly(b.uri, p.uri);
      if ext.verified.Some? { assert ContextOk(s, ext.verified.value); }
    }
  }

  ghost predicate Unheld(s: State, r: RequestId, marker: Address, cell: Address)
  {
    r !in s.records && !MarkerLive(s, marker) && !CellLive(s, cell)
  }

  /** A fresh cell and owners for request r; older records untouched. */
  ghost predicate Allocates(s: State, s': State, r: RequestId, marker: Address, cell: Address)
  {
    && s'.cells == s.cells[cell := Active]
    && s'.markerOwner == s.markerOwner[marker := r] && s'.cellOwner == s.cellOwner[cell := r]
    && (forall q :: q in s.records ==> q in s'.records && s'.records[q] == s.records[q])
  }

  lemma BindingSurvivesReceive(s: State, s': State, r: RequestId, marker: Address, cell: Address, b: LiveBinding)
    requires Allocates(s, s', r, marker, cell) && BindingOk(s, b) && b.marker != marker && b.lifecycle != cell
    ensures BindingOk(s', b) && s'.cellOwner[b.lifecycle] == s.cellOwner[b.lifecycle]
  {
  }

  lemma HoldersSurviveReceive(s: State, s': State, r: RequestId, marker: Address, cell: Address, h: HolderId)
    requires Inv(s) && Unheld(s, r, marker, cell) && Allocates(s, s', r, marker, cell) && h in s.holders
    ensures HolderOk(s', s.holders[h])
  {
    var ext := s.holders[h];
    assert HolderOk(s, ext);
    if ext.binding.Some? {
      BindingSurvivesReceive(s, s', r, marker, cell, ext.binding.value);
    }
  }

  /** New allocations touch no address that a live value, attempt or guard refers to. */
  lemma ReceiveKeepsOthers(s: State, s': State, r: RequestId, marker: Address, cell: Address)
    requires Inv(s) && Unheld(s, r, marker, cell) && Allocates(s, s', r, marker, cell)
    ensures forall h :: h in s.holders ==> HolderOk(s', s.holders[h])
    ensures forall t :: t in s.pending ==> PendingOk(s', s.pending[t])
    ensures forall q :: q in s.records ==> GuardOk(s', q)
  {
    forall h | h in s.holders ensures HolderOk(s', s.holders[h]) {
      HoldersSurviveReceive(s, s', r, marker, cell, h);
    }
    forall t | t in s.pending ensures PendingOk(s', s.pending[t]) {
      assert PendingOk(s, s.pending[t]);
      BindingSurvivesReceive(s, s', r, marker, cell, s.pending[t].binding);
    }
    forall q | q in s.records ensures GuardOk(s', q) {
      assert GuardOk(s, q);
    }
  }

  lemma NewHolderOk(s: State, r: RequestId, h: HolderId, p: Presented, a: Admission, marker: Address, cell: Address)
    requires Paired(a)
    ensures var s' := ApplyReceive(s, r, h, p, Some(a), marker, cell);
      HolderOk(s', s'.holders[h]) && r in s'.records && RecordOk(s'.records[r]) && GuardOk(s', r)
  {
  }

  lemma ReceiveKeepsInv(
    s: State, r: RequestId, h0: HolderId, p: Presented, admitted: Option<Admission>, marker: Address, cell: Address)
    requires Inv(s) && Unheld(s, r, marker, cell)
    requires admitted.Some? ==> Paired(admitted.value)
    ensures Inv(ApplyReceive(s, r, h0, p, admitted, marker, cell))
  {
    var s' := ApplyReceive(s, r, h0, p, admitted, marker, cell);
    if admitted.Some? {
      ReceiveKeepsOthers(s, s', r, marker, cell);
      NewHolderOk(s, r, h0, p, admitted.value, marker, cell);
    } else {
      SameOwnersKeepInv(s, s');
    }
  }

  /** A step that only removes or copies values keeps the invariant of all that is left. */
  lemma SameOwnersKeepInv(s: State, s': State)
    requires Inv(s)
    requires s'.cells == s.cells && s'.records == s.records
    requires s'.markerOwner == s.markerOwner && s'.cellOwner == s.cellOwner
    requires forall h :: h in s'.holders ==> HolderOk(s, s'.holders[h])
    requires forall t :: t in s'.pending ==> PendingOk(s, s'.pending[t])
    ensures Inv(s')
  {
    forall h | h in s'.holders ensures HolderOk(s', s'.holders[h]) { assert HolderOk(s, s'.holders[h]); }
    forall t | t in s'.pending ensures PendingOk(s', s'.pending[t]) { assert PendingOk(s, s'.pending[t]); }
    forall r | r in s'.records ensures GuardOk(s', r) { assert GuardOk(s, r); }
  }

  lemma RewriteKeepsInv(s: State, h0: HolderId, ext: LiveExtensions)
    requires Inv(s) && Obtainable(s, ext)
    ensures Inv(ApplyRewrite(s, h0, ext))
  {
    assert HolderOk(s, ext) by {
      if ext.binding.Some? {
        var h :| h in s.holders && s.holders[h].binding == ext.binding;
        assert HolderOk(s, s.holders[h]);
      }
      if ext.verified.Some? && ext.verified.value.requestMarker.Some? {
        var h :| h in s.holders && s.holders[h].verified == ext.verified;
        assert HolderOk(s, s.holders[h]);
      }
    }
    SameOwnersKeepInv(s, ApplyRewrite(s, h0, ext));
  }

  lemma AttemptKeepsInv(s: State, t0: ThreadId, h: HolderId, p: Presented, authenticator: AuthenticatorId)
    requires Inv(s) && h in s.holders
    ensures Inv(ApplyAttempt(s, t0, h, p, authenticator))
  {
    if Check(s.holders[h], p, authenticator).Some? {
      CheckIsFaithful(s, h, p, authenticator);
      SameOwnersKeepInv(s, ApplyAttempt(s, t0, h, p, authenticator));
    }
  }

  /** Request r's record became rec and its cell shows rec's stage; nothing else changed but finished attempts. */
  ghost predicate UpdatesOne(s: State, s': State, r: RequestId, rec: Record)
  {
    && r in s.records && s.records[r].binding.lifecycle in s.cellOwner
    && s.cellOwner[s.records[r].binding.lifecycle] == r
    && s'.holders == s.holders && s'.markerOwner == s.markerOwner && s'.cellOwner == s.cellOwner
    && s'.records == s.records[r := rec] && SameRequest(s.records[r], rec)
    && s'.cells == s.cells[s.records[r].binding.lifecycle := rec.StageOf()]
    && (forall t :: t in s'.pending ==> t in s.pending && s'.pending[t] == s.pending[t])
  }

  predicate SameRequest(rec: Record, rec': Record)
  {
    && rec'.received == rec.received && rec'.admission == rec.admission
    && rec'.binding == rec.binding && rec'.verified == rec.verified
  }

  lemma BindingAfterUpdate(s: State, s': State, r: RequestId, rec: Record, b: LiveBinding)
    requires BindingOk(s, b) && UpdatesOne(s, s', r, rec)
    ensures BindingOk(s', b) && s'.cellOwner[b.lifecycle] == s.cellOwner[b.lifecycle]
  {
    if s.cellOwner[b.lifecycle] == r {
      assert s.records[r].binding == b;
    }
  }

  /** Changing one record and its cell in step keeps every live binding in agreement with its owner. */
  lemma UpdateKeepsInv(s: State, s': State, r: RequestId, rec: Record)
    requires Inv(s) && UpdatesOne(s, s', r, rec) && RecordOk(rec)
    ensures Inv(s')
  {
    forall h | h in s'.holders ensures HolderOk(s', s'.holders[h]) {
      assert HolderOk(s, s.holders[h]);
      if s.holders[h].binding.Some? { BindingAfterUpdate(s, s', r, rec, s.holders[h].binding.value); }
    }
    forall t | t in s'.pending ensures PendingOk(s', s'.pending[t]) {
      assert PendingOk(s, s.pending[t]);
      BindingAfterUpdate(s, s', r, rec, s.pending[t].binding);
    }
    forall q | q in s'.records ensures GuardOk(s', q) {
      assert GuardOk(s, q);
    }
  }

  ghost predicate CanExchange(s: State, t: ThreadId)
  {
    && t in s.pending && s.pending[t].binding.lifecycle in s.cells && s.pending[t].binding.lifecycle in s.cellOwner
    && s.cellOwner[s.pending[t].binding.lifecycle] in s.records
  }

  lemma ExchangeKeepsInv(s: State, t: ThreadId)
    requires Inv(s) && CanExchange(s, t)
    ensures Inv(ApplyExchange(s, t))
  {
    var p := s.pending[t];
    var r := s.cellOwner[p.binding.lifecycle];
    assert PendingOk(s, p) && RecordOk(s.records[r]);
    if s.cells[p.binding.lifecycle] == Active {
      assert s.records[r].witnesses == [];
      var rec := s.records[r].(witnesses := s.records[r].witnesses + [p.outcome]);
      assert rec.witnesses == [p.outcome];
      UpdateKeepsInv(s, ApplyExchange(s, t), r, rec);
    } else {
      SameOwnersKeepInv(s, ApplyExchange(s, t));
    }
  }

  lemma DropKeepsInv(s: State, r: RequestId)
    requires Inv(s) && r in s.records && !s.records[r].dropped
    ensures Inv(ApplyDrop(s, r))
  {
    assert GuardOk(s, r) && RecordOk(s.records[r]);
    UpdateKeepsInv(s, ApplyDrop(s, r), r, s.records[r].(dropped := true));
  }

  /** The invariant is inductive over every step of every thread and of the inner service. */
  lemma StepKeepsInv(s: State, step: Step)
    requires Inv(s) && Enabled(s, step)
    ensures Inv(Apply(s, step))
  {
    match step {
      case Receive(r, h, p, _, admitted, marker, cell) => ReceiveKeepsInv(s, r, h, p, admitted, marker, cell);
      case Rewrite(h, ext) => RewriteKeepsInv(s, h, ext);
      case Attempt(t, h, p, authenticator) => AttemptKeepsInv(s, t, h, p, authenticator);
      case Exchange(t) => ExchangeKeepsInv(s, t);
      case DropGuard(r) => DropKeepsInv(s, r);
    }
  }

  /** Only a reception adds a record, and no step rewrites what a record says about its request. */
  lemma StepKeepsRequests(s: State, step: Step, r: RequestId)
    requires Enabled(s, step) && r in Apply(s, step).records
    ensures r in s.records ==> SameRequest(s.records[r], Apply(s, step).records[r])
    ensures r !in s.records ==>
      && step.Receive? && r == step.request && step.admitted == Some(Apply(s, step).records[r].admission)
      && Apply(s, step).records[r].received == step.presented
  {
    match step {
      case Receive(_, _, _, _, _, _, _) =>
      case Rewrite(_, _) =>
      case Attempt(t, h, p, authenticator) => assert ApplyAttempt(s, t, h, p, authenticator).records == s.records;
      case Exchange(t) =>
      case DropGuard(_) =>
    }
  }

  // ----- What one step may do to one request -----

  /** Stages only advance, and a request whose guard is gone gains no witness. */
  ghost predicate Advances(s: State, s': State)
  {
    forall r :: r in s.records ==>
      && r in s'.records
      && s.records[r].StageOf().Rank() <= s'.records[r].StageOf().Rank()
      && s.records[r].witnesses <= s'.records[r].witnesses
      && (s.records[r].dropped ==> s'.records[r] == s.records[r])
  }

  lemma ExchangeAdvances(s: State, t: ThreadId)
    requires Inv(s) && CanExchange(s, t)
    ensures Advances(s, ApplyExchange(s, t))
  {
    var p := s.pending[t];
    assert PendingOk(s, p);
    if s.cells[p.binding.lifecycle] == Active {
      assert !s.records[s.cellOwner[p.binding.lifecycle]].dropped;
    }
  }

  lemma ReceiveAdvances(s: State, step: Step)
    requires step.Receive? && Enabled(s, step)
    ensures Advances(s, Apply(s, step))
  {
    assert step.request !in s.records;
    var s' := Apply(s, step);
    assert forall r :: r in s.records ==> r in s'.records && s'.records[r] == s.records[r];
  }

  lemma DropAdvances(s: State, r: RequestId)
    requires r in s.records && !s.records[r].dropped
    ensures Advances(s, ApplyDrop(s, r))
  {
  }

  lemma AttemptAdvances(s: State, t: ThreadId, h: HolderId, p: Presented, authenticator: AuthenticatorId)
    requires h in s.holders
    ensures Advances(s, ApplyAttempt(s, t, h, p, authenticator))
  {
  }

  lemma StepAdvances(s: State, step: Step)
    requires Inv(s) && Enabled(s, step)
    ensures Advances(s, Apply(s, step))
  {
    match step {
      case Receive(_, _, _, _, _, _, _) => ReceiveAdvances(s, step);
      case Exchange(t) => ExchangeAdvances(s, t);
      case DropGuard(r) => DropAdvances(s, r);
      case Attempt(t, h, p, authenticator) => AttemptAdvances(s, t, h, p, authenticator);
      case Rewrite(_, _) =>
    }
  }

  /**
   * A reception leaves in its holder exactly what was attached to this request, or nothing when the wrapper
   * answers by itself: no value of an earlier request survives there.
   */
  lemma ReceptionExactly(s: State, step: Step)
    requires step.Receive? && Enabled(s, step)
    ensures var s', p := Apply(s, step), step.presented;
      && (step.admitted.Some? <==> step.holder in s'.holders) && (step.admitted.Some? <==> step.request in s'.records)
      && (forall h :: h != step.holder ==> (h in s'.holders <==> h in s.holders))
      && (forall h :: h in s.holders && h != step.holder ==> s'.holders[h] == s.holders[h])
      && (step.admitted.Some? ==>
            var a, ext := step.admitted.value, s'.holders[step.holder];
            && ext.binding ==
               Some(Binding(p.verb, p.uri, DigestOf(p.authorization), step.marker, step.cell, a.surface))
            && ext.auth == a.context && ext.surface == a.surface
            && ext.verified == if a.context.None? then None
                               else Some(VerifiedAuthContext(a.context.value, a.authenticator, Some(step.marker))))
  {
  }

  /** A thread's attempt is spent by its exchange, won or lost, and the cell it was for is active no more. */
  lemma ExchangeSpends(s: State, t: ThreadId)
    requires CanExchange(s, t)
    ensures var s' := ApplyExchange(s, t);
      && s'.pending == s.pending - {t} && s'.holders == s.holders
      && s.pending[t].binding.lifecycle in s'.cells && s'.cells[s.pending[t].binding.lifecycle] != Active
  {
  }

  /** A refused attempt changes nothing, and a lost compare-and-exchange changes no cell and no record. */
  lemma RefusalLeavesState(s: State, step: Step)
    requires Enabled(s, step)
    ensures step.Attempt? && Check(s.holders[step.holder], step.presented, step.authenticator).None? ==>
      Apply(s, step) == s
    ensures step.Exchange? && s.cells[s.pending[step.thread].binding.lifecycle] != Active ==>
      Apply(s, step) == s.(pending := s.pending - {step.thread})
  {
  }

  /** An undisturbed request is granted on its first attempt, while its guard is held. */
  lemma UndisturbedIsGranted(s: State, r: RequestId, h: HolderId, t: ThreadId)
    requires Inv(s) && r in s.records && s.records[r].StageOf() == Active
    requires h in s.holders && t !in s.pending
    requires var rec := s.records[r];
      s.holders[h] == Attached(rec.admission, rec.received, rec.binding.marker, rec.binding.lifecycle)
    ensures var rec := s.records[r];
      var attempt := Attempt(t, h, rec.received, rec.admission.authenticator);
      var s1 := Apply(s, attempt);
      Enabled(s1, Exchange(t)) &&
      Apply(s1, Exchange(t)).records[r].witnesses ==
        [Witness(Grant(rec.admission.context, rec.admission.surface), rec.received, rec.admission.authenticator)]
  {
    var rec := s.records[r];
    assert RecordOk(rec) && HolderOk(s, s.holders[h]) && GuardOk(s, r);
    assert s.holders[h].binding.value == rec.binding;
    assert rec.binding == BeginBinding(rec.received, rec.binding.marker, rec.binding.lifecycle, rec.admission.surface);
    SameExactly(rec.received.uri, rec.received.uri);
  }
}
