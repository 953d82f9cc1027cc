/** The EAP authenticator state machine: eap.c.  Every callback of an EAP method may answer
    anything; only what the state machine itself does is fixed. */
module Eap {
  import opened Lists

  const TYPE_NONE := 0
  const TYPE_IDENTITY := 1
  const TYPE_NOTIFICATION := 2
  const TYPE_NAK := 3
  const TYPE_EXPANDED_NAK := 254
  const CODE_RESPONSE := 2
  const MAX_METHODS := 8

  type byte = x: int | 0 <= x < 256

  datatype EapState = DISABLED | INITIALIZE | IDLE | RECEIVED | INTEGRITY_CHECK | METHOD_RESPONSE
    | METHOD_REQUEST | PROPOSE_METHOD | SELECT_ACTION | SEND_REQUEST | DISCARD | NAK | RETRANSMIT
    | SUCCESS | FAILURE | TIMEOUT_FAILURE | PICK_UP_METHOD

  datatype MethodState = METHOD_PROPOSED | METHOD_CONTINUE | METHOD_END
  datatype Decision = DECISION_SUCCESS | DECISION_FAILURE | DECISION_CONTINUE

  datatype UserEntry = UserEntry(methods: seq<byte>, phase2: bool)
  type User = u: UserEntry | |u.methods| == MAX_METHODS witness UserEntry(seq(MAX_METHODS, _ => 0), false)

  // ---------- what a run does, step by step ----------

  /** Proposed records whether the method is present, Checked the type and identifier of the response,
      those of the current request, and whether the integrity check let it pass, Judged whether the
      method says that it has succeeded, and Requested the identifier of the next request and whether the
      method could build it. */
  datatype Event =
    | Started
    | Proposed(kind: int, present: bool)
    | Dropped
    | Checked(respMethod: int, respId: int, kind: int, id: int, accepted: bool)
    | Processed(kind: int)
    | Judged(kind: int, yes: bool)
    | Requested(id: int, built: bool)
    | Sent(id: int)
    | Succeeded

  /** How far the method proposed last has come since the last start. */
  datatype Phase = Nothing | Absent | Fresh(kind: int) | Accepted(kind: int) | Answered(kind: int) | Approved(kind: int)

  predicate InUse(p: Phase, kind: int)
  {
    !p.Nothing? && !p.Absent? && p.kind == kind
  }

  function PhaseStep(before: Phase, e: Event): Phase
  {
    match e
    case Started => Nothing
    case Dropped => Nothing
    case Proposed(kind, present) => if present then Fresh(kind) else Absent
    case Checked(rm, ri, kind, id, ok) => if ok && rm == kind && ri == id && InUse(before, kind) then Accepted(kind) else before
    case Processed(kind) => if before == Accepted(kind) then Answered(kind) else before
    case Judged(kind, yes) => if before == Answered(kind) && yes then Approved(kind) else before
    case _ => before
  }

  function PhaseOf(trace: seq<Event>): Phase
  {
    if trace == [] then Nothing else PhaseStep(PhaseOf(trace[..|trace| - 1]), trace[|trace| - 1])
  }

  /** Nothing was started, proposed or dropped in tr after i. */
  ghost predicate Undisturbed(tr: seq<Event>, i: int)
  {
    forall l | 0 <= i < l < |tr| :: !tr[l].Started? && !tr[l].Proposed? && !tr[l].Dropped?
  }

  /** A method was proposed at i, present or not. */
  ghost predicate ProposedAt(tr: seq<Event>, e: Event, i: int)
  {
    0 <= i < |tr| && tr[i] == e && e.Proposed? && Undisturbed(tr, i)
  }

  /** A method that was proposed at i got a response at j that passed the check. */
  ghost predicate HalfJustified(tr: seq<Event>, kind: int, i: int, j: int)
  {
    && i < j < |tr| && ProposedAt(tr, Proposed(kind, true), i)
    && tr[j].Checked? && tr[j].accepted && tr[j].respMethod == tr[j].kind == kind && tr[j].respId == tr[j].id
  }

  /** The response was processed at k. */
  ghost predicate Justified(tr: seq<Event>, kind: int, i: int, j: int, k: int)
  {
    HalfJustified(tr, kind, i, j) && j < k < |tr| && tr[k] == Processed(kind)
  }

  /** The method said at l that it has succeeded. */
  ghost predicate ApprovedAt(tr: seq<Event>, kind: int, i: int, j: int, k: int, l: int)
  {
    Justified(tr, kind, i, j, k) && k < l < |tr| && tr[l] == Judged(kind, true)
  }

  /** What the phases mean. */
  lemma {:induction false} PhaseMeaning(tr: seq<Event>)
    ensures PhaseOf(tr).Absent? ==> exists e, i :: ProposedAt(tr, e, i) && !e.present
    ensures PhaseOf(tr).Fresh? ==> exists i :: ProposedAt(tr, Proposed(PhaseOf(tr).kind, true), i)
    ensures PhaseOf(tr).Accepted? ==> exists i, j :: HalfJustified(tr, PhaseOf(tr).kind, i, j)
    ensures PhaseOf(tr).Answered? ==> exists i, j, k :: Justified(tr, PhaseOf(tr).kind, i, j, k)
    ensures PhaseOf(tr).Approved? ==> exists i, j, k, l :: ApprovedAt(tr, PhaseOf(tr).kind, i, j, k, l)
  {
    if tr != [] {
      var n := |tr| - 1;
      var pre := tr[..n];
      PhaseMeaning(pre);
      var p, q := PhaseOf(pre), PhaseOf(tr);
      if tr[n].Proposed? {
        assert ProposedAt(tr, tr[n], n);
      } else if q != Nothing && q == p {
        PhaseKept(pre, tr);
      } else if q.Accepted? {
        PhaseAccepted(pre, tr);
      } else if q.Answered? {
        PhaseKept(pre, tr);
        var i, j :| HalfJustified(pre, q.kind, i, j);
        assert Justified(tr, q.kind, i, j, n);
      } else if q.Approved? {
        PhaseKept(pre, tr);
        var i, j, k :| Justified(pre, q.kind, i, j, k);
        assert ApprovedAt(tr, q.kind, i, j, k, n);
      }
    }
  }

  lemma PhaseKept(pre: seq<Event>, tr: seq<Event>)
    requires |tr| == |pre| + 1 && tr[..|pre|] == pre
    requires var e := tr[|pre|]; !e.Started? && !e.Proposed? && !e.Dropped?
    ensures forall e, i :: ProposedAt(pre, e, i) ==> ProposedAt(tr, e, i)
    ensures forall m, i, j :: HalfJustified(pre, m, i, j) ==> HalfJustified(tr, m, i, j)
    ensures forall m, i, j, k :: Justified(pre, m, i, j, k) ==> Justified(tr, m, i, j, k)
    ensures forall m, i, j, k, l :: ApprovedAt(pre, m, i, j, k, l) ==> ApprovedAt(tr, m, i, j, k, l)
  {
    assert forall l | 0 <= l < |pre| :: tr[l] == pre[l];
  }

  lemma PhaseAccepted(pre: seq<Event>, tr: seq<Event>)
    requires tr != [] && pre == tr[..|tr| - 1] && tr[|tr| - 1].Checked? && PhaseOf(tr).Accepted?
    requires PhaseOf(tr) != PhaseOf(pre)
    requires PhaseOf(pre).Fresh? ==> exists i :: ProposedAt(pre, Proposed(PhaseOf(pre).kind, true), i)
    requires PhaseOf(pre).Answered? ==> exists i, j, k :: Justified(pre, PhaseOf(pre).kind, i, j, k)
    requires PhaseOf(pre).Approved? ==> exists i, j, k, l :: ApprovedAt(pre, PhaseOf(pre).kind, i, j, k, l)
    ensures exists i, j :: HalfJustified(tr, PhaseOf(tr).kind, i, j)
  {
    var m, n := PhaseOf(tr).kind, |tr| - 1;
    assert PhaseOf(pre).kind == m;
    PhaseKept(pre, tr);
    if PhaseOf(pre).Fresh? {
      var i :| ProposedAt(pre, Proposed(m, true), i);
      assert HalfJustified(tr, m, i, n);
    } else if PhaseOf(pre).Approved? {
      var i, j, k, l :| ApprovedAt(pre, m, i, j, k, l);
      assert HalfJustified(tr, m, i, n);
    } else {
      var i, j, k :| Justified(pre, m, i, j, k);
      assert HalfJustified(tr, m, i, n);
    }
  }

  /** The identifiers used last and sent last, -1 for none; how many were used since one was sent;
      whether the machine was started since; and that of a request that is built and not yet sent. */
  datatype Ids = Ids(used: int, sent: int, uses: nat, restarted: bool, open: Option<int>)

  const NO_IDS := Ids(-1, -1, 0, false, None)

  function IdsStep(s: Ids, e: Event): Ids
  {
    match e
    case Started => s.(restarted := true, open := None)
    case Requested(id, built) => s.(used := id, uses := s.uses + 1, open := if built then Some(id) else None)
    case Sent(id) => Ids(s.used, id, 0, false, None)
    case _ => s.(open := None)
  }

  function IdsOf(trace: seq<Event>): Ids
  {
    if trace == [] then NO_IDS else IdsStep(IdsOf(trace[..|trace| - 1]), trace[|trace| - 1])
  }

  /** What may follow: a request that was built is sent before anything else happens, and no other is
      sent; success only for a method other than Identity that has said yes; without a back
      end a request only for a proposed method, and not with the identifier used before.  If the
      machine was not started since, what is sent has the identifier sent before exactly after a
      multiple of 256 uses; without a back end it has another one if none was used in between. */
  predicate Allowed(e: Event, phase: Phase, s: Ids, backend: bool)
  {
    && (s.open.Some? ==> e == Sent(s.open.value))
    && match e
       case Succeeded => phase.Approved? && phase.kind != TYPE_IDENTITY
       case Requested(id, _) =>
         0 <= id < 256 && (!backend ==> !phase.Nothing? && !phase.Absent? && (s.used >= 0 ==> id != s.used))
       case Sent(id) =>
         && s.open == Some(id) && 0 <= id == s.used && s.uses > 0
         && (s.sent >= 0 && !s.restarted ==> (id == s.sent <==> s.uses % 256 == 0))
         && (s.sent >= 0 && !backend && s.uses == 1 ==> id != s.sent)
       case _ => true
  }

  ghost predicate SafeTrace(trace: seq<Event>, backend: bool)
  {
    forall n | 0 <= n < |trace| :: Allowed(trace[n], PhaseOf(trace[..n]), IdsOf(trace[..n]), backend)
  }

  lemma SafeMore(trace: seq<Event>, e: Event, backend: bool)
    requires SafeTrace(trace, backend) && Allowed(e, PhaseOf(trace), IdsOf(trace), backend)
    ensures SafeTrace(trace + [e], backend) && (trace + [e])[..|trace|] == trace
  {
    hide Allowed, PhaseOf, IdsOf;
    var more := trace + [e];
    assert more[..|trace|] == trace;
    forall n | 0 <= n < |more|
      ensures Allowed(more[n], PhaseOf(more[..n]), IdsOf(more[..n]), backend)
    {
      if n < |trace| { assert more[..n] == trace[..n]; }
    }
  }

  /** At n success was declared, and before that a method other than Identity was proposed, a
      response with the type and identifier of the current request passed its check, it was
      processed, and the method said that it has succeeded, with no start or other proposal since. */
  ghost predicate Earned(trace: seq<Event>, n: int)
  {
    0 <= n < |trace| && trace[n].Succeeded? && exists m, i, j, k, l :: m != TYPE_IDENTITY && ApprovedAt(trace[..n], m, i, j, k, l)
  }

  /** The safety of every run: each success is earned. */
  lemma SuccessIsJustified(trace: seq<Event>, backend: bool, n: nat)
    requires SafeTrace(trace, backend) && n < |trace| && trace[n].Succeeded?
    ensures Earned(trace, n)
  {
    PhaseMeaning(trace[..n]);
    var m := PhaseOf(trace[..n]).kind;
    var i, j, k, l :| ApprovedAt(trace[..n], m, i, j, k, l);
  }

  lemma EarnedBefore(trace: seq<Event>, more: seq<Event>)
    requires trace <= more
    ensures forall n :: Earned(trace, n) ==> Earned(more, n)
  {
    assert forall n | 0 <= n <= |trace| :: more[..n] == trace[..n];
  }

  /** The number of identifiers used in tr after i. */
  function Uses(tr: seq<Event>, i: nat): nat
  {
    if |tr| <= i + 1 then 0 else Uses(tr[..|tr| - 1], i) + if tr[|tr| - 1].Requested? then 1 else 0
  }

  /** What the identifiers say about the trace since the request sent last. */
  lemma {:induction false} SentLast(tr: seq<Event>, i: nat)
    requires i < |tr| && tr[i].Sent? && forall l | i < l < |tr| :: !tr[l].Sent?
    ensures IdsOf(tr).sent == tr[i].id && IdsOf(tr).uses == Uses(tr, i)
    ensures (forall l | i < l < |tr| :: !tr[l].Started?) ==> !IdsOf(tr).restarted
    ensures IdsOf(tr).uses > 0 ==> exists a :: i < a < |tr| && tr[a].Requested?
    ensures IdsOf(tr).uses > 1 ==> exists a, b :: i < a < b < |tr| && tr[a].Requested? && tr[b].Requested?
  {
    var n := |tr| - 1;
    var pre := tr[..n];
    if i < n {
      SentLast(pre, i);
      assert forall l | 0 <= l < n :: tr[l] == pre[l];
    }
  }

  /** A request that was built is sent at once. */
  lemma BuiltIsSent(trace: seq<Event>, backend: bool, a: nat)
    requires SafeTrace(trace, backend) && a + 1 < |trace| && trace[a].Requested? && trace[a].built
    ensures trace[a + 1] == Sent(trace[a].id)
  {
    var pre := trace[..a + 1];
    assert pre[..a] == trace[..a] && IdsOf(pre).open == Some(trace[a].id);
    assert Allowed(trace[a + 1], PhaseOf(pre), IdsOf(pre), backend);
  }

  /** Without a back end, a request that is sent with the identifier sent before follows a request
      in between that could not be built. */
  lemma RepeatedIdentifier(trace: seq<Event>, i: nat, n: nat)
    requires SafeTrace(trace, false) && i < n < |trace| && trace[i].Sent? && trace[n].Sent?
    requires (forall l | i < l < n :: !trace[l].Sent?) && trace[i].id == trace[n].id
    ensures exists a :: i < a < n && trace[a].Requested? && !trace[a].built
  {
    hide IdsOf, PhaseOf;
    var pre := trace[..n];
    assert forall l | 0 <= l < n :: trace[l] == pre[l];
    SentLast(pre, i);
    assert Allowed(trace[i], PhaseOf(trace[..i]), IdsOf(trace[..i]), false);
    assert Allowed(trace[n], PhaseOf(pre), IdsOf(pre), false);
    var a, b :| i < a < b < |pre| && pre[a].Requested? && pre[b].Requested?;
    assert trace[a] == pre[a];
    if trace[a].built { BuiltIsSent(trace, false, a); }
  }

  /** If the machine is not started in between, a request sent at n has the identifier of the request
      sent before, at i, exactly if a multiple of 256 identifiers was used in between. */
  lemma RepeatExactly(trace: seq<Event>, backend: bool, i: nat, n: nat)
    requires SafeTrace(trace, backend) && i < n < |trace| && trace[i].Sent? && trace[n].Sent?
    requires forall l | i < l < n :: !trace[l].Sent? && !trace[l].Started?
    ensures trace[n].id == trace[i].id <==> Uses(trace[..n], i) % 256 == 0
  {
    hide IdsOf, PhaseOf;
    var pre := trace[..n];
    assert forall l | 0 <= l < n :: trace[l] == pre[l];
    SentLast(pre, i);
    assert Allowed(trace[i], PhaseOf(trace[..i]), IdsOf(trace[..i]), backend);
    assert Allowed(trace[n], PhaseOf(pre), IdsOf(pre), backend);
  }

  // ---------- responses and Nak lists ----------

  /** rxResp, respId and respMethod. */
  datatype Response = Response(rx: bool, id: int, kind: int)

  /** The length field of the header. */
  function HeaderLength(d: seq<byte>): int
    requires 4 <= |d|
  {
    var hi: int, lo: int := d[2], d[3];
    256 * hi + lo
  }

  /** eap_sm_parseEapResp: whether it is a response, its identifier (-1 for none) and its type. */
  function ParseResp(resp: Option<seq<byte>>): (r: Response)
    ensures -1 <= r.id < 256 && 0 <= r.kind < 256
  {
    if resp.None? || |resp.value| < 4 then Response(false, -1, TYPE_NONE) else
    var d := resp.value;
    if HeaderLength(d) > |d| then Response(false, -1, TYPE_NONE)
    else Response(d[0] == CODE_RESPONSE, d[1], if |d| > 4 then d[4] else TYPE_NONE)
  }

  /** The method types that a Nak offers.  A length field below 5 makes the length computed for the
      list wrap around, so that it has no end within the response. */
  datatype Offer = NoOffer | Offer(types: seq<byte>, endless: bool)

  function NakOffer(resp: Option<seq<byte>>): Offer
  {
    if resp.None? || |resp.value| <= 4 then NoOffer else
    var d := resp.value;
    var length := HeaderLength(d);
    var len := if length > |d| then |d| else length;
    if d[4] != TYPE_NAK then NoOffer else if len < 5 then Offer(d[5..], true) else Offer(d[5..len], false)
  }

  /** A packet: code, identifier, length, type and the rest. */
  function Packet(code: byte, id: byte, kind: byte, rest: seq<byte>): (d: seq<byte>)
    requires |rest| + 5 < 0x1_0000
    ensures |d| == |rest| + 5
  {
    [code, id, (|rest| + 5) / 256, (|rest| + 5) % 256, kind] + rest
  }

  /** What was sent is what is received, also with bytes behind the packet. */
  lemma ParsePacket(code: byte, id: byte, kind: byte, rest: seq<byte>, more: seq<byte>)
    requires |rest| + 5 < 0x1_0000
    ensures var d := Some(Packet(code, id, kind, rest) + more);
            && ParseResp(d) == Response(code == CODE_RESPONSE, id, kind)
            && NakOffer(d) == if kind == TYPE_NAK then Offer(rest, false) else NoOffer
  {
    var p := Packet(code, id, kind, rest);
    var d := p + more;
    assert d[0] == code && d[1] == id && d[4] == kind && HeaderLength(d) == |rest| + 5;
    assert d[5..|rest| + 5] == rest;
  }

  /** Nothing is received exactly from a packet that is missing, shorter than its header or truncated. */
  lemma ParseNothing(resp: Option<seq<byte>>)
    ensures ParseResp(resp).id == -1 <==> resp.None? || |resp.value| < 4 || HeaderLength(resp.value) > |resp.value|
    ensures ParseResp(resp).id == -1 ==> !ParseResp(resp).rx
  {
  }

  /** The methods that stay, up to the first empty entry; removed ones leave empty entries at
      the end. */
  function Kept(s: seq<byte>, nak: seq<byte>): (r: seq<byte>)
    ensures |r| == |s|
  {
    if s == [] || s[0] == TYPE_NONE then s
    else if s[0] in nak then [s[0]] + Kept(s[1..], nak)
    else Kept(s[1..], nak) + [TYPE_NONE]
  }

  /** Every method that can still be proposed is one the peer listed. */
  lemma {:induction false} KeptAreListed(s: seq<byte>, nak: seq<byte>, i: nat)
    requires i < |s| && forall j | 0 <= j <= i :: Kept(s, nak)[j] != TYPE_NONE
    ensures Kept(s, nak)[i] in nak && Kept(s, nak)[i] in s
  {
    var r := Kept(s, nak);
    if s[0] in nak && s[0] != TYPE_NONE {
      assert forall j | 0 <= j < |s| - 1 :: Kept(s[1..], nak)[j] == r[j + 1];
      if i > 0 { KeptAreListed(s[1..], nak, i - 1); }
    } else if s[0] != TYPE_NONE {
      assert forall j | 0 <= j < |s| - 1 :: r[j] == Kept(s[1..], nak)[j];
      assert r[|s| - 1] == TYPE_NONE;
      KeptAreListed(s[1..], nak, i);
    }
  }

  /** The entries of s that are in nak, in order. */
  function Filter(s: seq<byte>, nak: seq<byte>): seq<byte>
  {
    if s == [] then [] else
    var n := |s| - 1;
    Filter(s[..n], nak) + if s[n] in nak then [s[n]] else []
  }

  lemma {:induction false} FilterFront(x: byte, s: seq<byte>, nak: seq<byte>)
    ensures Filter([x] + s, nak) == (if x in nak then [x] else []) + Filter(s, nak)
  {
    if s == [] {
      assert [x] + s == [x] && [x][..0] == [];
    } else {
      var n := |s| - 1;
      FilterFront(x, s[..n], nak);
      assert ([x] + s)[..n + 1] == [x] + s[..n];
    }
  }

  /** The methods before the first empty entry that the peer listed stay, in their order, and no others. */
  lemma {:induction false} KeptExactly(s: seq<byte>, nak: seq<byte>)
    requires TYPE_NONE !in nak
    ensures var r := Kept(s, nak); Live(r) <= |r| && Live(s) <= |s| && r[..Live(r)] == Filter(s[..Live(s)], nak)
  {
    if s != [] && s[0] != TYPE_NONE {
      var t := s[1..];
      KeptExactly(t, nak);
      FilterFront(s[0], t[..Live(t)], nak);
      assert s[..Live(s)] == [s[0]] + t[..Live(t)];
      if s[0] in nak {
        assert Kept(s, nak)[1..] == Kept(t, nak);
      } else {
        LiveAppend(Kept(t, nak));
      }
    }
  }

  /** Every method up to the first empty entry is listed. */
  predicate AllListed(s: seq<byte>, nak: seq<byte>)
  {
    s == [] || s[0] == TYPE_NONE || (s[0] in nak && AllListed(s[1..], nak))
  }

  /** eap_sm_process_nak.  The search in a list without an end leaves the response exactly if some
      method is not listed within it. */
  method ProcessNak(methods: seq<byte>, index: nat, nak: seq<byte>, endless: bool) returns (r: seq<byte>, beyond: bool)
    requires |methods| == MAX_METHODS && index <= MAX_METHODS
    ensures beyond <==> endless && !AllListed(methods[index..], nak)
    ensures |r| == MAX_METHODS && (!beyond ==> r == methods[..index] + Kept(methods[index..], nak))
  {
    r, beyond := methods, false;
    var i := index;
    while i < MAX_METHODS && r[i] != TYPE_NONE
      invariant index <= i <= MAX_METHODS && |r| == MAX_METHODS
      invariant methods[..index] + Kept(methods[index..], nak) == r[..i] + Kept(r[i..], nak)
      invariant endless ==> (AllListed(methods[index..], nak) <==> AllListed(r[i..], nak))
      decreases Live(r[i..])
    {
      ghost var r0 := r;
      var j := 0;
      while j < |nak| && nak[j] != r[i]
        invariant 0 <= j <= |nak| && r[i] !in nak[..j]
      {
        j := j + 1;
      }
      assert r[i..][0] == r[i] && r[i..][1..] == r[i + 1..];
      if j < |nak| {
        assert r[i] in nak;
        assert r[..i] + ([r[i]] + Kept(r[i + 1..], nak)) == r[..i + 1] + Kept(r[i + 1..], nak);
        i := i + 1;
      } else {
        assert nak[..j] == nak;
        if endless { return r, true; }
        r := r[..i] + r[i + 1..] + [TYPE_NONE];
        assert r[i..] == r0[i + 1..] + [TYPE_NONE];
        LiveAppend(r0[i + 1..]);
        KeptAppend(r0[i + 1..], nak);
        assert r[..i] == r0[..i];
      }
    }
    if i == MAX_METHODS { assert r[i..] == []; }
    assert r[..i] + r[i..] == r;
  }

  /** The number of entries before the first empty one. */
  function Live(s: seq<byte>): (n: nat)
    ensures n <= |s|
  {
    if s == [] || s[0] == TYPE_NONE then 0 else 1 + Live(s[1..])
  }

  /** These entries. */
  function Listed(s: seq<byte>): seq<byte>
  {
    s[..Live(s)]
  }

  lemma ListedNext(s: seq<byte>, i: nat)
    requires i <= |s|
    ensures Listed(s[i..]) == if i < |s| && s[i] != TYPE_NONE then [s[i]] + Listed(s[i + 1..]) else []
  {
    if i < |s| { assert s[i..][1..] == s[i + 1..]; }
  }

  lemma {:induction false} LiveAppend(s: seq<byte>)
    ensures Live(s + [TYPE_NONE]) == Live(s)
  {
    if s != [] {
      LiveAppend(s[1..]);
      assert (s + [TYPE_NONE])[1..] == s[1..] + [TYPE_NONE];
    }
  }

  lemma {:induction false} KeptAppend(s: seq<byte>, nak: seq<byte>)
    ensures Kept(s + [TYPE_NONE], nak) == Kept(s, nak) + [TYPE_NONE]
  {
    if s != [] && s[0] != TYPE_NONE {
      KeptAppend(s[1..], nak);
      assert (s + [TYPE_NONE])[1..] == s[1..] + [TYPE_NONE];
    }
  }

  // ---------- identifiers ----------

  /** eap_sm_nextId, with the random number as a parameter. */
  function NextId(id: int, lastId: int, random: byte): (r: byte)
    requires -1 <= id < 256 && 0 <= lastId < 256
    ensures r == lastId <==> 0 <= id && (id + 1) % 256 == lastId
  {
    if id < 0 && random != lastId then random
    else ((if id < 0 then random else id) + 1) % 256
  }

  // ---------- the machine ----------

  /** What the process callback makes of the identity and the user, the answer of isDone, and whether getKey
      gives a key. */
  datatype Processing = Processing(identity: bool, user: Option<User>, index: nat, isDone: bool, key: bool)

  /** Another method is configured for the user. */
  predicate HasMethod(user: Option<User>, index: nat)
  {
    user.Some? && index < MAX_METHODS && user.value.methods[index] != TYPE_NONE
  }

  /** The user has to be looked up in the database. */
  predicate LooksUp(user: Option<User>, updateUser: bool, identity: bool)
  {
    (user.None? || updateUser) && identity
  }

  /** The method in use decides. */
  predicate Settled(m: bool, current: int, isSuccess: bool, isDone: bool)
  {
    m && ((current != TYPE_IDENTITY && isSuccess) || (isDone && !isSuccess))
  }

  /** Another method is to be tried: the method in use does not decide, the user is known where the
      identity is, and has another method or still has to be identified. */
  predicate Continues(settled: bool, user: Option<User>, index: nat, lookup: bool, found: Option<User>, identified: bool)
  {
    !settled && (!lookup || found.Some?) && (HasMethod(if lookup then found else user, if lookup then 0 else index) || !identified)
  }

  /** The user's methods after a Nak with the given offer. */
  function AfterNak(user: Option<User>, index: nat, nak: Offer): Option<User>
  {
    if user.None? || nak.NoOffer? || user.value.phase2 || index > MAX_METHODS then user
    else Some(UserEntry(user.value.methods[..index] + Kept(user.value.methods[index..], nak.types), false))
  }

  /** Processing the Nak reads past the end of the response. */
  predicate Overruns(user: Option<User>, index: nat, nak: Offer)
  {
    && nak.Offer? && nak.endless && user.Some? && !user.value.phase2 && index <= MAX_METHODS
    && !AllListed(user.value.methods[index..], nak.types)
  }

  /** The variables shared with the EAPOL state machines. */
  datatype Eapol = Eapol(portEnabled: bool, eapRestart: bool, eapResp: bool, eapReq: bool, eapNoReq: bool,
    eapSuccess: bool, eapFail: bool, eapTimeout: bool)

  /** next is what eap_sm_nextId may return. */
  ghost predicate Follows(next: int, id: int, lastId: int)
  {
    -1 <= id < 256 && 0 <= lastId < 256 && exists random: byte :: next == NextId(id, lastId, random)
  }

  lemma AnyRandom(id: int, lastId: int, random: byte)
    requires -1 <= id < 256 && 0 <= lastId < 256
    ensures Follows(NextId(id, lastId, random), id, lastId)
  {
    var next := NextId(id, lastId, random);
    assert next == NextId(id, lastId, random);
  }

  /** After a start any identifier can follow but the last one. */
  lemma AnyFollows(next: byte, lastId: int)
    requires 0 <= lastId < 256
    ensures Follows(next, -1, lastId) <==> next != lastId
  {
    if next != lastId { AnyRandom(-1, lastId, next); }
  }

  predicate InRange(currentId: int, lastId: int, respId: int)
  {
    -1 <= currentId < 256 && 0 <= lastId < 256 && -1 <= respId < 256
  }

  /** The states in which a method has been proposed or picked up and its exchange goes on. */
  predicate Waiting(state: EapState)
  {
    state in {PROPOSE_METHOD, METHOD_REQUEST, SEND_REQUEST, IDLE, RETRANSMIT, RECEIVED, DISCARD, INTEGRITY_CHECK, METHOD_RESPONSE}
  }

  /** The method in use is the one proposed last, and each state has what the transition into it
      has established. */
  predicate Consistent(state: EapState, m: bool, current: int, ignore: bool, halted: bool, decision: Decision, backend: bool, phase: Phase)
  {
    && (m ==> current != TYPE_NONE && (current != TYPE_IDENTITY || !backend ==> InUse(phase, current)))
    && (Waiting(state) && !m ==> phase == Absent)
    && match state
       case INTEGRITY_CHECK => halted || (m && (!ignore && current != TYPE_IDENTITY ==> phase == Accepted(current)))
       case METHOD_RESPONSE => m && (current != TYPE_IDENTITY ==> phase == Answered(current))
       case PICK_UP_METHOD => if m then current == TYPE_IDENTITY else current == TYPE_NONE
       case SELECT_ACTION => decision == DECISION_SUCCESS ==> current != TYPE_IDENTITY && phase == Approved(current)
       case NAK => !m
       case INITIALIZE => !m && (backend ==> current == TYPE_NONE)
       case _ => true
  }

  lemma InitialConsistent(current: int, ignore: bool, halted: bool, decision: Decision, backend: bool)
    requires backend ==> current == TYPE_NONE
    ensures Consistent(INITIALIZE, false, current, ignore, halted, decision, backend, Nothing)
  {
  }

  lemma AnsweredConsistent(state: EapState, current: int, ignore: bool, halted: bool, decision: Decision, backend: bool, phase: Phase)
    requires Consistent(state, true, current, ignore, halted, decision, backend, phase)
    requires current != TYPE_IDENTITY ==> state == INTEGRITY_CHECK && !ignore && !halted
    ensures Consistent(METHOD_RESPONSE, true, current, ignore, halted, decision, backend, PhaseStep(phase, Processed(current)))
  {
  }

  lemma JudgedConsistent(state: EapState, m: bool, current: int, ignore: bool, halted: bool, decision: Decision, backend: bool, phase: Phase, yes: bool)
    requires Consistent(state, m, current, ignore, halted, decision, backend, phase)
    requires state == INITIALIZE || state == NAK || state == METHOD_RESPONSE || (state == PICK_UP_METHOD && !m)
    ensures state == METHOD_RESPONSE ==> m
    ensures state == METHOD_RESPONSE || !m
    ensures var asked := m && current != TYPE_IDENTITY;
            var after := if asked then PhaseStep(phase, Judged(current, yes)) else phase;
            forall d: Decision | d == DECISION_SUCCESS <==> asked && yes :: Consistent(SELECT_ACTION, m, current, ignore, halted, d, backend, after)
  {
  }

  /** How the identifiers in use go with those recorded; req is that of a request not yet sent. */
  predicate Identifiers(currentId: int, lastId: int, req: Option<int>, backend: bool, s: Ids)
  {
    && (!s.restarted ==> currentId == lastId) && (!backend ==> currentId == -1 || currentId == lastId)
    && (s.used >= 0 ==> s.used == lastId) && s.sent < 256
    && req == s.open && (req.Some? ==> req.value == s.used == currentId == lastId && s.uses > 0)
    && (s.sent >= 0 && !s.restarted ==> lastId == (s.sent + s.uses) % 256)
    && (s.sent >= 0 && s.uses == 0 ==> lastId == s.sent == s.used)
    && (s.sent >= 0 && s.uses == 1 && !backend ==> lastId != s.sent)
  }

  lemma IdsStarted(currentId: int, currentId': int, lastId: int, backend: bool, s: Ids)
    requires Identifiers(currentId, lastId, None, backend, s) && (!backend ==> currentId' == -1)
    ensures Identifiers(currentId', lastId, None, backend, s.(restarted := true))
  {
  }

  lemma IdsUsed(currentId: int, lastId: int, backend: bool, s: Ids, phase: Phase, random: byte, built: bool)
    requires Identifiers(currentId, lastId, None, backend, s) && -1 <= currentId < 256 && 0 <= lastId < 256
    requires backend || (!phase.Nothing? && !phase.Absent?)
    ensures var id := NextId(currentId, lastId, random); var e := Requested(id, built);
            Allowed(e, phase, s, backend) && Identifiers(id, id, if built then Some(id) else None, backend, IdsStep(s, e))
  {
    var id := NextId(currentId, lastId, random);
    assert currentId >= 0 ==> id == (currentId + 1) % 256;
    hide NextId;
    ModNext(s.sent + s.uses);
  }

  lemma NothingOpen(currentId: int, lastId: int, backend: bool, s: Ids)
    requires Identifiers(currentId, lastId, None, backend, s)
    ensures s.open.None?
  {
  }

  lemma ModNext(x: int)
    ensures (x % 256 + 1) % 256 == (x + 1) % 256
  {
  }

  lemma IdsSent(currentId: int, lastId: int, req: Option<int>, backend: bool, s: Ids, phase: Phase)
    requires Identifiers(currentId, lastId, req, backend, s) && 0 <= lastId < 256 && req.Some?
    ensures Allowed(Sent(lastId), phase, s, backend) && Identifiers(currentId, lastId, None, backend, IdsStep(s, Sent(lastId)))
    ensures req.value == lastId
  {
    if s.sent >= 0 { ModSame(s.sent, s.uses); }
  }

  lemma ModSame(x: int, k: nat)
    requires 0 <= x < 256
    ensures (x + k) % 256 == x <==> k % 256 == 0
  {
  }

  /** A request that is built waits for the next step, which sends it. */
  predicate Unsent(state: EapState, req: Option<int>, eapol: Eapol)
  {
    req.Some? ==> state == METHOD_REQUEST && eapol.portEnabled && !eapol.eapRestart
  }

  /** How many more steps can follow before the lower layer has to act. */
  function RankOf(state: EapState, eapol: Eapol, retransWhile: int): nat
  {
    if !eapol.portEnabled then (if state == DISABLED then 0 else 1)
    else if eapol.eapRestart then 30
    else match state
      case SUCCESS => 0
      case FAILURE => 0
      case TIMEOUT_FAILURE => 0
      case IDLE => if retransWhile == 0 then 11 else if eapol.eapResp then 9 else 1
      case SEND_REQUEST => if eapol.eapResp then 10 else 2
      case DISCARD => if eapol.eapResp then 10 else 2
      case METHOD_REQUEST => 3
      case PROPOSE_METHOD => 4
      case SELECT_ACTION => 5
      case NAK => 6
      case METHOD_RESPONSE => 6
      case INTEGRITY_CHECK => 7
      case PICK_UP_METHOD => 7
      case RECEIVED => 8
      case INITIALIZE => 9
      case RETRANSMIT => 10
      case DISABLED => 10
  }

  predicate IsNak(kind: int)
  {
    kind == TYPE_NAK || kind == TYPE_EXPANDED_NAK
  }

  /** The state that the transition table of draft-ietf-eap-statemachine-05 leads to. */
  function Target(state: EapState, eapol: Eapol, backend: bool, resp: Response, current: int, currentId: int,
    methodState: MethodState, ignore: bool, decision: Decision, retransWhile: int, tooMany: bool): EapState
  {
    if eapol.eapRestart && eapol.portEnabled then INITIALIZE
    else if !eapol.portEnabled then DISABLED
    else match state
      case DISABLED => INITIALIZE
      case INITIALIZE => if !backend || !resp.rx then SELECT_ACTION else if IsNak(resp.kind) then NAK else PICK_UP_METHOD
      case PICK_UP_METHOD => if current == TYPE_NONE then SELECT_ACTION else METHOD_RESPONSE
      case IDLE => if retransWhile == 0 then RETRANSMIT else if eapol.eapResp then RECEIVED else IDLE
      case RETRANSMIT => if tooMany then TIMEOUT_FAILURE else IDLE
      case RECEIVED =>
        if !resp.rx || resp.id != currentId then DISCARD
        else if IsNak(resp.kind) && methodState == METHOD_PROPOSED then NAK
        else if resp.kind == current then INTEGRITY_CHECK else DISCARD
      case DISCARD => IDLE
      case SEND_REQUEST => IDLE
      case INTEGRITY_CHECK => if ignore then DISCARD else METHOD_RESPONSE
      case METHOD_REQUEST => SEND_REQUEST
      case METHOD_RESPONSE => if methodState == METHOD_END then SELECT_ACTION else METHOD_REQUEST
      case PROPOSE_METHOD => METHOD_REQUEST
      case NAK => SELECT_ACTION
      case SELECT_ACTION =>
        if decision == DECISION_FAILURE then FAILURE else if decision == DECISION_SUCCESS then SUCCESS else PROPOSE_METHOD
      case _ => state
  }

  /** The same table read backwards: each state is entered exactly from these states, on these conditions. */
  lemma TargetExactly(state: EapState, eapol: Eapol, backend: bool, resp: Response, current: int, currentId: int,
    methodState: MethodState, ignore: bool, decision: Decision, retransWhile: int, tooMany: bool)
    ensures var t := Target(state, eapol, backend, resp, current, currentId, methodState, ignore, decision, retransWhile, tooMany);
            var goes := eapol.portEnabled && !eapol.eapRestart;
            var matches := resp.rx && resp.id == currentId;
            var given := (state == PICK_UP_METHOD && current == TYPE_NONE) || (state == METHOD_RESPONSE && methodState == METHOD_END);
            var back := state == DISCARD || state == SEND_REQUEST || (state == RETRANSMIT && !tooMany);
            var refused := matches && IsNak(resp.kind) && methodState == METHOD_PROPOSED;
            && (t == DISABLED <==> !eapol.portEnabled)
            && (t == INITIALIZE <==> eapol.portEnabled && (eapol.eapRestart || state == DISABLED))
            && (t == PICK_UP_METHOD <==> goes && state == INITIALIZE && backend && resp.rx && !IsNak(resp.kind))
            && (t == NAK <==> goes && ((state == INITIALIZE && backend && resp.rx && IsNak(resp.kind)) || (state == RECEIVED && refused)))
            && (t == SELECT_ACTION <==> goes && ((state == INITIALIZE && !(backend && resp.rx)) || state == NAK || given))
            && (t == METHOD_RESPONSE <==> goes && ((state == PICK_UP_METHOD && current != TYPE_NONE) || (state == INTEGRITY_CHECK && !ignore)))
            && (t == METHOD_REQUEST <==> goes && (state == PROPOSE_METHOD || (state == METHOD_RESPONSE && methodState != METHOD_END)))
            && (t == SEND_REQUEST <==> goes && state == METHOD_REQUEST)
            && (t == PROPOSE_METHOD <==> goes && state == SELECT_ACTION && decision == DECISION_CONTINUE)
            && (t == SUCCESS <==> goes && (state == SUCCESS || (state == SELECT_ACTION && decision == DECISION_SUCCESS)))
            && (t == FAILURE <==> goes && (state == FAILURE || (state == SELECT_ACTION && decision == DECISION_FAILURE)))
            && (t == RECEIVED <==> goes && state == IDLE && retransWhile != 0 && eapol.eapResp)
            && (t == RETRANSMIT <==> goes && state == IDLE && retransWhile == 0)
            && (t == TIMEOUT_FAILURE <==> goes && (state == TIMEOUT_FAILURE || (state == RETRANSMIT && tooMany)))
            && (t == INTEGRITY_CHECK <==> goes && state == RECEIVED && matches && !refused && resp.kind == current)
            && (t == DISCARD <==> goes && ((state == RECEIVED && !refused && !(matches && resp.kind == current)) || (state == INTEGRITY_CHECK && ignore)))
            && (t == IDLE <==> goes && (back || (state == IDLE && retransWhile != 0 && !eapol.eapResp)))
  {
  }

  /** Nothing is to be done until the lower layer acts. */
  predicate Stays(state: EapState, eapol: Eapol, retransWhile: int)
  {
    if !eapol.portEnabled then state == DISABLED
    else if eapol.eapRestart then state == INITIALIZE
    else state in {SUCCESS, FAILURE, TIMEOUT_FAILURE} || (state == IDLE && retransWhile != 0 && !eapol.eapResp)
  }

  /** The response that the machine looks at before the lower layer acts again, if there is one. */
  function Upcoming(state: EapState, eapol: Eapol, retransWhile: int, tooMany: bool, resp: Response, data: Option<seq<byte>>): (r: Option<Response>)
    ensures state !in {IDLE, RETRANSMIT, RECEIVED, DISCARD, SEND_REQUEST} || (state != RECEIVED && !eapol.eapResp) ==> r.None?
  {
    if !eapol.portEnabled || eapol.eapRestart then None
    else if state == RECEIVED then Some(resp)
    else if !eapol.eapResp || state !in {IDLE, RETRANSMIT, DISCARD, SEND_REQUEST} then None
    else if tooMany && (state == RETRANSMIT || (state == IDLE && retransWhile == 0)) then None
    else Some(ParseResp(data))
  }

  /** A response to the current request, with the type of the current method. */
  predicate Answers(r: Option<Response>, current: int, currentId: int, methodState: MethodState): (b: bool)
    ensures b ==> r.Some?
  {
    r.Some? && r.value.rx && r.value.id == currentId && r.value.kind == current && !(IsNak(current) && methodState == METHOD_PROPOSED)
  }

  predicate IsNakResponse(r: Response)
  {
    r.rx && IsNak(r.kind)
  }

  /** If the machine enters NAK before the lower layer acts again: the index of the user's method then. */
  function NakDue(state: EapState, eapol: Eapol, backend: bool, upcoming: Option<Response>, resp: Response, parsed: Response,
    currentId: int, methodState: MethodState, index: nat): (r: Option<nat>)
    ensures !eapol.eapRestart && state !in {DISABLED, INITIALIZE} && upcoming.None? ==> r.None?
  {
    if !eapol.portEnabled then None
    else if (if eapol.eapRestart then state != INITIALIZE else state == DISABLED) then
      if backend && IsNakResponse(parsed) then Some(0) else None
    else if eapol.eapRestart then None
    else if state == INITIALIZE then
      if backend && IsNakResponse(resp) then Some(index) else None
    else if upcoming.Some? && IsNakResponse(upcoming.value) && upcoming.value.id == currentId && methodState == METHOD_PROPOSED then Some(index)
    else None
  }

  lemma BareResponse(id: byte)
    ensures ParseResp(Some([CODE_RESPONSE, id, 0, 4])) == Response(true, id, TYPE_NONE)
  {
    assert HeaderLength([CODE_RESPONSE, id, 0, 4]) == 4;
  }

  /** Where the integrity check follows a null pointer: after a failed init callback there is no
      method and no current type, and a response with the current identifier comes without a type. */
  lemma HaltingInput()
    ensures var eapol := Eapol(true, false, true, false, false, false, false, false);
            var r := Upcoming(IDLE, eapol, 1, false, Response(false, -1, TYPE_NONE), Some([CODE_RESPONSE, 7, 0, 4]));
            Answers(r, TYPE_NONE, 7, METHOD_PROPOSED)
  {
    hide ParseResp;
    BareResponse(7);
  }

  /** A Nak without an end. */
  predicate ShortNak(data: Option<seq<byte>>)
  {
    data.Some? && |data.value| > 4 && data.value[4] == TYPE_NAK && HeaderLength(data.value) < 5
  }

  /** A Nak with a length field of 4. */
  lemma ShortNakResponse(id: byte)
    ensures var d := Some([CODE_RESPONSE, id, 0, 4, TYPE_NAK]);
            ParseResp(d) == Response(true, id, TYPE_NAK) && NakOffer(d) == Offer([], true)
  {
    var d: seq<byte> := [CODE_RESPONSE, id, 0, 4, TYPE_NAK];
    assert HeaderLength(d) == 4 && d[5..] == [];
  }

  /** What the lower layer does between two calls: the shared variables, the response and the timer, and
      whether it calls eap_sm_notify_cached. */
  datatype Input = Input(eapol: Eapol, data: Option<seq<byte>>, timer: int, cached: bool)

  class EapSm {
    /** The compiled-in method types, and whether a back end server uses the machine. */
    const methods: set<int>
    const backendAuth: bool
    const maxRetrans: int

    var state: EapState
    var changed: bool
    /** The source has followed a null pointer, or has read past the end of a response. */
    var halted: bool
    var overrun: bool

    var eapol: Eapol
    var eapRespData: Option<seq<byte>>
    /** The identifier of the request that was built, if there is one. */
    var eapReqData: Option<int>
    var eapKeyData: bool
    var retransWhile: int

    var currentMethod: int
    var currentId: int
    var lastId: int
    var methodState: MethodState
    var retransCount: int
    var resp: Response
    var ignore: bool
    var decision: Decision
    /** The selected method has its private data exactly when it is present. */
    var m: bool
    var identity: bool
    var user: Option<User>
    var index: nat
    var updateUser: bool

    ghost var trace: seq<Event>

    /** eap_sm_init. */
    constructor (methods: set<int>, backendAuth: bool)
      requires TYPE_IDENTITY in methods && TYPE_NONE !in methods
      ensures Valid() && Running() && state == DISABLED && trace == [] && !identity && lastId == 0 && eapReqData.None?
      ensures this.methods == methods && this.backendAuth == backendAuth && maxRetrans == 10
    {
      this.methods, this.backendAuth, maxRetrans := methods, backendAuth, 10;
      state, changed, halted, overrun := DISABLED, false, false, false;
      eapol := Eapol(false, false, false, false, false, false, false, false);
      eapRespData, eapReqData, eapKeyData, retransWhile := None, None, false, 0;
      currentMethod, currentId, lastId, methodState := TYPE_NONE, 0, 0, METHOD_PROPOSED;
      retransCount, resp, ignore := 0, Response(false, 0, TYPE_NONE), false;
      decision, m, identity, user, index, updateUser := DECISION_SUCCESS, false, false, None, 0, false;
      trace := [];
    }

    ghost predicate Valid()
      reads this
    {
      && TYPE_NONE !in methods && SafeTrace(trace, backendAuth) && InRange(currentId, lastId, resp.id)
      && Consistent(state, m, currentMethod, ignore, halted, decision, backendAuth, PhaseOf(trace))
      && Identifiers(currentId, lastId, eapReqData, backendAuth, IdsOf(trace)) && Unsent(state, eapReqData, eapol)
    }

    predicate Running()
      reads this
    {
      !halted && !overrun
    }

    ghost method Record(e: Event)
      requires SafeTrace(trace, backendAuth) && Allowed(e, PhaseOf(trace), IdsOf(trace), backendAuth)
      modifies this`trace
      ensures trace == old(trace) + [e] && SafeTrace(trace, backendAuth)
      ensures PhaseOf(trace) == PhaseStep(PhaseOf(old(trace)), e) && IdsOf(trace) == IdsStep(IdsOf(old(trace)), e)
    {
      hide SafeTrace, Allowed;
      SafeMore(trace, e, backendAuth);
      trace := trace + [e];
    }

    /** Record an event that is allowed whenever no request is waiting, and that uses no identifier. */
    ghost method Note(e: Event)
      requires SafeTrace(trace, backendAuth) && !e.Succeeded? && !e.Requested? && !e.Sent? && eapReqData.None?
      requires Identifiers(currentId, lastId, eapReqData, backendAuth, IdsOf(trace))
      modifies this`trace
      ensures trace == old(trace) + [e] && SafeTrace(trace, backendAuth) && PhaseOf(trace) == PhaseStep(PhaseOf(old(trace)), e)
      ensures IdsOf(trace) == if e.Started? then IdsOf(old(trace)).(restarted := true) else IdsOf(old(trace))
    {
      hide SafeTrace, PhaseOf, IdsOf;
      Record(e);
    }

    /** The head of every state entry. */
    method Enter(s: EapState, global: bool)
      modifies this`state, this`changed
      ensures state == s && changed == (old(changed) || !global || old(state) != s)
    {
      if !global || state != s { changed := true; }
      state := s;
    }

    method EnterDisabled()
      requires Valid() && !eapol.portEnabled
      modifies this`state, this`changed
      ensures Valid() && state == DISABLED && changed == (old(changed) || old(state) != DISABLED)
    {
      hide SafeTrace, PhaseOf, IdsOf, Identifiers;
      Enter(DISABLED, true);
    }

    predicate Selected(kind: int, started: bool)
      reads this
    {
      m == (kind in methods && started) && currentMethod == if kind in methods && !started then TYPE_NONE else kind
    }

    /** The lookup of a method and its init callback, which may fail. */
    method Select(kind: int, started: bool)
      modifies this`m, this`currentMethod
      ensures Selected(kind, started)
    {
      currentMethod := kind;
      m := kind in methods;
      if m && !started { m, currentMethod := false, TYPE_NONE; }
    }

    method EnterInitialize(global: bool)
      requires Valid() && (eapol.eapRestart || state != METHOD_REQUEST)
      modifies this`state, this`changed, this`currentId, this`eapol, this`eapKeyData, this`m, this`index, this`currentMethod, this`resp, this`trace
      ensures Valid() && state == INITIALIZE
      ensures eapol == old(eapol).(eapSuccess := false, eapFail := false, eapTimeout := false, eapRestart := false)
      ensures changed == (old(changed) || !global || old(state) != INITIALIZE)
      ensures !m && index == 0 && !eapKeyData && trace == old(trace) + [Started]
      ensures resp == (if backendAuth then ParseResp(eapRespData) else old(resp))
      ensures currentId == (if backendAuth && resp.rx then resp.id else -1)
      ensures currentMethod == (if backendAuth then TYPE_NONE else old(currentMethod))
    {
      hide SafeTrace, PhaseOf, IdsOf, Identifiers, Consistent, ParseResp;
      Enter(INITIALIZE, global);
      Note(Started);
      ghost var id0, ids := currentId, IdsOf(old(trace));
      Reset();
      InitialConsistent(currentMethod, ignore, halted, decision, backendAuth);
      IdsStarted(id0, currentId, lastId, backendAuth, ids);
    }

    /** What is forgotten with the start, and in a back end learnt from the first response. */
    method Reset()
      modifies this`currentId, this`eapol, this`eapKeyData, this`m, this`index, this`currentMethod, this`resp
      ensures eapol == old(eapol).(eapSuccess := false, eapFail := false, eapTimeout := false, eapRestart := false)
      ensures !m && index == 0 && !eapKeyData && resp == (if backendAuth then ParseResp(eapRespData) else old(resp))
      ensures currentId == (if backendAuth && resp.rx then resp.id else -1)
      ensures currentMethod == (if backendAuth then TYPE_NONE else old(currentMethod))
    {
      hide ParseResp;
      currentId := -1;
      eapol := eapol.(eapSuccess := false, eapFail := false, eapTimeout := false, eapRestart := false);
      eapKeyData, m, index := false, false, 0;
      if backendAuth {
        currentMethod := TYPE_NONE;
        resp := ParseResp(eapRespData);
        if resp.rx { currentId := resp.id; }
      }
    }

    /** With the initPickUp callback of the method: whether there is one, and its answer. */
    method EnterPickUpMethod(hasPickUp: bool, started: bool)
      requires Valid() && state == INITIALIZE && backendAuth
      modifies this`state, this`changed, this`m, this`currentMethod
      ensures Valid() && state == PICK_UP_METHOD && changed
      ensures m == (resp.kind == TYPE_IDENTITY && TYPE_IDENTITY in methods && hasPickUp && started)
      ensures currentMethod == if m then TYPE_IDENTITY else TYPE_NONE
    {
      hide SafeTrace, PhaseOf, IdsOf, Identifiers;
      Enter(PICK_UP_METHOD, false);
      if resp.kind == TYPE_IDENTITY {
        Select(resp.kind, started);
        if m && !hasPickUp { m, currentMethod := false, TYPE_NONE; }
        if !m { currentMethod := TYPE_NONE; }
      }
    }

    method EnterIdle()
      requires Valid() && Waiting(state) && state != METHOD_REQUEST
      modifies this`state, this`changed, this`retransWhile
      ensures Valid() && state == IDLE && changed && retransWhile == 1
    {
      hide SafeTrace, PhaseOf, IdsOf, Identifiers;
      Enter(IDLE, false);
      retransWhile := 1;
    }

    method EnterPlain(s: EapState)
      requires Valid() && Waiting(state) && state != METHOD_REQUEST && (s == RETRANSMIT || s == TIMEOUT_FAILURE)
      modifies this`state, this`changed, this`eapol
      ensures Valid() && state == s && changed
      ensures eapol == if s == TIMEOUT_FAILURE then old(eapol).(eapTimeout := true) else old(eapol)
    {
      hide SafeTrace, PhaseOf, IdsOf, Identifiers;
      Enter(s, false);
      if s == TIMEOUT_FAILURE { eapol := eapol.(eapTimeout := true); }
    }

    method EnterReceived()
      requires Valid() && Waiting(state) && state != METHOD_REQUEST
      modifies this`state, this`changed, this`resp
      ensures Valid() && state == RECEIVED && changed && resp == ParseResp(eapRespData)
    {
      hide SafeTrace, PhaseOf, IdsOf, Identifiers;
      Enter(RECEIVED, false);
      resp := ParseResp(eapRespData);
    }

    method EnterDiscard()
      requires Valid() && Waiting(state) && state != METHOD_REQUEST
      modifies this`state, this`changed, this`eapol
      ensures Valid() && state == DISCARD && changed
      ensures eapol == old(eapol).(eapResp := false, eapNoReq := true)
    {
      hide SafeTrace, PhaseOf, IdsOf, Identifiers;
      Enter(DISCARD, false);
      eapol := eapol.(eapResp := false, eapNoReq := true);
    }

    method EnterSendRequest()
      requires Valid() && state == METHOD_REQUEST
      modifies this`state, this`changed, this`eapol, this`eapReqData, this`retransCount, this`trace
      ensures Valid() && state == SEND_REQUEST && changed && eapReqData.None? && retransCount == 0
      ensures eapol == old(eapol).(eapResp := false, eapReq := old(eapReqData).Some?,
        eapNoReq := if old(eapReqData).Some? then old(eapol).eapNoReq else true)
      ensures trace == if old(eapReqData).Some? then old(trace) + [Sent(lastId)] else old(trace)
    {
      hide SafeTrace, PhaseOf, IdsOf, Identifiers;
      Enter(SEND_REQUEST, false);
      retransCount := 0;
      if eapReqData.Some? {
        IdsSent(currentId, lastId, eapReqData, backendAuth, IdsOf(trace), PhaseOf(trace));
        Record(Sent(eapReqData.value));
        eapReqData := None;
        eapol := eapol.(eapResp := false, eapReq := true);
      } else {
        eapol := eapol.(eapResp := false, eapReq := false, eapNoReq := true);
      }
    }

    /** With the answer of the check callback, if there is one. */
    method EnterIntegrityCheck(check: Option<bool>)
      requires Valid() && state == RECEIVED && resp.rx && resp.id == currentId && resp.kind == currentMethod
      modifies this`state, this`changed, this`ignore, this`halted, this`trace
      ensures Valid() && state == INTEGRITY_CHECK && changed && halted == (old(halted) || !m)
      ensures m ==> ignore == if check.Some? then check.value else old(ignore)
      ensures trace == if m then old(trace) + [Checked(resp.kind, resp.id, currentMethod, currentId, !ignore)] else old(trace)
    {
      hide SafeTrace, PhaseOf, IdsOf, Identifiers;
      Enter(INTEGRITY_CHECK, false);
      if !m {
        halted := true;
        return;
      }
      if check.Some? { ignore := check.value; }
      Note(Checked(resp.kind, resp.id, currentMethod, currentId, !ignore));
    }

    /** With the answers of the random number generator and of the buildReq callback. */
    method EnterMethodRequest(random: byte, built: bool)
      requires Valid() && (state == PROPOSE_METHOD || state == METHOD_RESPONSE) && eapol.portEnabled && !eapol.eapRestart
      modifies this`state, this`changed, this`currentId, this`lastId, this`eapReqData, this`trace
      ensures Valid() && state == METHOD_REQUEST && changed
      ensures !m ==> currentId == old(currentId) && lastId == old(lastId) && eapReqData.None? && trace == old(trace)
      ensures m ==> -1 <= old(currentId) < 256 && 0 <= old(lastId) < 256
      ensures m ==> currentId == lastId == NextId(old(currentId), old(lastId), random) && trace == old(trace) + [Requested(currentId, built)]
      ensures m ==> eapReqData == if built then Some(currentId) else None
    {
      hide SafeTrace, PhaseOf, IdsOf, Identifiers, NextId;
      Enter(METHOD_REQUEST, false);
      if !m { return; }
      IdsUsed(currentId, lastId, backendAuth, IdsOf(trace), PhaseOf(trace), random, built);
      var id := NextId(currentId, lastId, random);
      currentId, lastId := id, id;
      Record(Requested(id, built));
      eapReqData := if built then Some(id) else None;
    }

    /** With what the callbacks of the method do. */
    method EnterMethodResponse(p: Processing)
      requires Valid() && m && (state == PICK_UP_METHOD || state == INTEGRITY_CHECK)
      requires currentMethod != TYPE_IDENTITY ==> state == INTEGRITY_CHECK && !ignore && !halted
      modifies this`state, this`changed, this`identity, this`user, this`index, this`methodState, this`eapKeyData, this`trace
      ensures Valid() && state == METHOD_RESPONSE && changed && trace == old(trace) + [Processed(currentMethod)]
      ensures identity == p.identity && user == p.user && index == p.index && eapKeyData == (if p.isDone then p.key else old(eapKeyData))
      ensures methodState == if p.isDone then METHOD_END else METHOD_CONTINUE
    {
      hide SafeTrace, PhaseOf, IdsOf, Identifiers, Consistent, PhaseStep;
      AnsweredConsistent(state, currentMethod, ignore, halted, decision, backendAuth, PhaseOf(trace));
      Enter(METHOD_RESPONSE, false);
      Note(Processed(currentMethod));
      Process(p);
    }

    /** The process, isDone and getKey callbacks. */
    method Process(p: Processing)
      modifies this`identity, this`user, this`index, this`methodState, this`eapKeyData
      ensures identity == p.identity && user == p.user && index == p.index && eapKeyData == (if p.isDone then p.key else old(eapKeyData))
      ensures methodState == if p.isDone then METHOD_END else METHOD_CONTINUE
    {
      identity, user, index := p.identity, p.user, p.index;
      if p.isDone {
        eapKeyData := p.key;
        methodState := METHOD_END;
      } else {
        methodState := METHOD_CONTINUE;
      }
    }

    /** With the answer of the init callback. */
    method EnterProposeMethod(started: bool)
      requires Valid() && state == SELECT_ACTION
      modifies this`state, this`changed, this`m, this`currentMethod, this`updateUser, this`index, this`methodState, this`trace
      ensures Valid() && state == PROPOSE_METHOD && changed && trace == old(trace) + [Proposed(currentMethod, m)]
      ensures methodState == if currentMethod == TYPE_IDENTITY || currentMethod == TYPE_NOTIFICATION then METHOD_CONTINUE else METHOD_PROPOSED
      ensures !identity || currentId == -1 ==> updateUser && Selected(TYPE_IDENTITY, started)
      ensures identity && currentId != -1 && HasMethod(user, old(index)) ==> Selected(user.value.methods[old(index)], started)
    {
      hide SafeTrace, PhaseOf, IdsOf, Identifiers;
      Enter(PROPOSE_METHOD, false);
      var next := SelectNext(started);
      Note(Proposed(currentMethod, m));
    }

    method SelectNext(started: bool) returns (next: int)
      modifies this`m, this`currentMethod, this`updateUser, this`index, this`methodState
      ensures Selected(next, started)
      ensures methodState == if currentMethod == TYPE_IDENTITY || currentMethod == TYPE_NOTIFICATION then METHOD_CONTINUE else METHOD_PROPOSED
      ensures !identity || currentId == -1 ==> updateUser && Selected(TYPE_IDENTITY, started)
      ensures identity && currentId != -1 && HasMethod(user, old(index)) ==> Selected(user.value.methods[old(index)], started)
    {
      next := GetNextMethod();
      Select(next, started);
      if currentMethod == TYPE_IDENTITY || currentMethod == TYPE_NOTIFICATION {
        methodState := METHOD_CONTINUE;
      } else {
        methodState := METHOD_PROPOSED;
      }
    }

    /** eap_sm_Policy_getNextMethod. */
    method GetNextMethod() returns (next: int)
      modifies this`updateUser, this`index
      ensures !identity || currentId == -1 ==> next == TYPE_IDENTITY && updateUser
      ensures identity && currentId != -1 && HasMethod(user, old(index)) ==>
        next == user.value.methods[old(index)] && index == old(index) + 1
      ensures identity && currentId != -1 && !HasMethod(user, old(index)) ==> next == TYPE_NONE
      ensures !identity || currentId == -1 || !HasMethod(user, old(index)) ==> index == old(index)
    {
      if !identity || currentId == -1 {
        next := TYPE_IDENTITY;
        updateUser := true;
      } else if HasMethod(user, index) {
        next := user.value.methods[index];
        index := index + 1;
      } else {
        next := TYPE_NONE;
      }
    }

    /** What eap_sm_Policy_getNextMethod proposes from here on: the configured methods from the index on, in order,
        up to the first empty entry. */
    method RemainingMethods() returns (offered: seq<int>)
      requires identity && currentId != -1 && index <= MAX_METHODS
      modifies this`updateUser, this`index
      ensures offered == if user.Some? then Listed(user.value.methods[old(index)..]) else []
      decreases MAX_METHODS - index
    {
      hide Listed;
      if user.Some? { ListedNext(user.value.methods, index); }
      var next := GetNextMethod();
      offered := [];
      if next != TYPE_NONE {
        var rest := RemainingMethods();
        offered := [next] + rest;
      }
    }

    method EnterNak()
      requires Valid() && (state == RECEIVED || state == INITIALIZE)
      modifies this`state, this`changed, this`m, this`user, this`decision, this`overrun, this`trace
      ensures Valid() && state == NAK && changed && !m && trace == old(trace) + [Dropped]
      ensures overrun == (old(overrun) || Overruns(old(user), index, NakOffer(eapRespData)))
      ensures Overruns(old(user), index, NakOffer(eapRespData)) || user == AfterNak(old(user), index, NakOffer(eapRespData))
      ensures decision == if NakOffer(eapRespData).Offer? && old(user).Some? && old(user).value.phase2 then DECISION_FAILURE else old(decision)
    {
      hide SafeTrace, PhaseOf, IdsOf, Identifiers;
      Enter(NAK, false);
      m := false;
      Note(Dropped);
      PolicyUpdate(NakOffer(eapRespData));
    }

    /** eap_sm_Policy_update. */
    method PolicyUpdate(nak: Offer)
      modifies this`user, this`decision, this`overrun
      ensures overrun == (old(overrun) || Overruns(old(user), index, nak))
      ensures Overruns(old(user), index, nak) || user == AfterNak(old(user), index, nak)
      ensures decision == if nak.Offer? && old(user).Some? && old(user).value.phase2 then DECISION_FAILURE else old(decision)
    {
      if nak.Offer? && user.Some? {
        if user.value.phase2 {
          decision := DECISION_FAILURE;
        } else if index <= MAX_METHODS {
          var r, beyond := ProcessNak(user.value.methods, index, nak.types, nak.endless);
          if beyond {
            overrun := true;
          } else {
            user := Some(UserEntry(r, false));
          }
        }
      }
    }

    /** With the answers of the isSuccess and isDone callbacks and of the user database. */
    method EnterSelectAction(isSuccess: bool, isDone: bool, found: Option<User>)
      requires Valid() && !halted
      requires state == INITIALIZE || state == NAK || state == METHOD_RESPONSE || (state == PICK_UP_METHOD && !m)
      modifies this`state, this`changed, this`decision, this`updateUser, this`user, this`index, this`trace
      ensures Valid() && state == SELECT_ACTION && changed
      ensures trace == if m && currentMethod != TYPE_IDENTITY then old(trace) + [Judged(currentMethod, isSuccess)] else old(trace)
      ensures decision == DECISION_SUCCESS <==> m && currentMethod != TYPE_IDENTITY && isSuccess
      ensures decision == DECISION_SUCCESS ==> old(state) == METHOD_RESPONSE
      ensures m && isDone && !isSuccess ==> decision == DECISION_FAILURE
      ensures !m && !identity ==> decision == DECISION_CONTINUE
      ensures decision == DECISION_CONTINUE <==>
        Continues(Settled(m, currentMethod, isSuccess, isDone), old(user), old(index), LooksUp(old(user), old(updateUser), identity), found,
          identity && currentId != -1)
      ensures decision == DECISION_CONTINUE && LooksUp(old(user), old(updateUser), identity) ==> user == found && index == 0
    {
      hide SafeTrace, PhaseOf, IdsOf, Identifiers, Continues, LooksUp, Settled, HasMethod, Consistent, PhaseStep;
      JudgedConsistent(state, m, currentMethod, ignore, halted, decision, backendAuth, PhaseOf(trace), isSuccess);
      Enter(SELECT_ACTION, false);
      if m && currentMethod != TYPE_IDENTITY { Note(Judged(currentMethod, isSuccess)); }
      decision := GetDecision(isSuccess, isDone, found);
    }

    /** eap_sm_Policy_getDecision. */
    method GetDecision(isSuccess: bool, isDone: bool, found: Option<User>) returns (d: Decision)
      modifies this`updateUser, this`user, this`index
      ensures d == DECISION_SUCCESS <==> m && currentMethod != TYPE_IDENTITY && isSuccess
      ensures d == DECISION_CONTINUE <==>
        Continues(Settled(m, currentMethod, isSuccess, isDone), old(user), old(index), LooksUp(old(user), old(updateUser), identity), found,
          identity && currentId != -1)
      ensures m && isDone && !isSuccess ==> d == DECISION_FAILURE
      ensures !m && !identity ==> d == DECISION_CONTINUE
      ensures d == DECISION_CONTINUE && LooksUp(old(user), old(updateUser), identity) ==> user == found && index == 0
      ensures Settled(m, currentMethod, isSuccess, isDone) ==> updateUser && user == old(user) && index == old(index)
      ensures !Settled(m, currentMethod, isSuccess, isDone) && !LooksUp(old(user), old(updateUser), identity) ==>
        updateUser == old(updateUser) && user == old(user) && index == old(index)
      ensures !Settled(m, currentMethod, isSuccess, isDone) && LooksUp(old(user), old(updateUser), identity) ==>
        user == found && (found.Some? ==> !updateUser && index == 0) && (found.None? ==> updateUser == old(updateUser) && index == old(index))
    {
      if m && currentMethod != TYPE_IDENTITY && isSuccess {
        updateUser := true;
        return DECISION_SUCCESS;
      }
      if m && isDone && !isSuccess {
        updateUser := true;
        return DECISION_FAILURE;
      }
      if (user.None? || updateUser) && identity {
        user := None;
        if found.None? { return DECISION_FAILURE; }
        user, index := found, 0;
        updateUser := false;
      }
      if HasMethod(user, index) {
        return DECISION_CONTINUE;
      }
      if !identity || currentId == -1 { return DECISION_CONTINUE; }
      return DECISION_FAILURE;
    }

    method EnterFailure()
      requires Valid() && state == SELECT_ACTION
      modifies this`state, this`changed, this`eapReqData, this`eapol
      ensures Valid() && state == FAILURE && changed && eapol == old(eapol).(eapFail := true)
    {
      hide SafeTrace, PhaseOf, IdsOf, Identifiers;
      Enter(FAILURE, false);
      eapReqData, eapol := None, eapol.(eapFail := true);
    }

    method EnterSuccess()
      requires Valid() && state == SELECT_ACTION && decision == DECISION_SUCCESS
      modifies this`state, this`changed, this`eapReqData, this`eapol, this`trace
      ensures Valid() && state == SUCCESS && changed && eapol == old(eapol).(eapSuccess := true)
      ensures trace == old(trace) + [Succeeded]
    {
      hide SafeTrace, PhaseOf, IdsOf, Identifiers;
      Enter(SUCCESS, false);
      NothingOpen(currentId, lastId, backendAuth, IdsOf(trace));
      eapReqData, eapol := None, eapol.(eapSuccess := true);
      Record(Succeeded);
    }

    ghost function Rank(): nat
      reads this
    {
      RankOf(state, eapol, retransWhile)
    }

    ghost function Next(): EapState
      reads this
    {
      Target(state, eapol, backendAuth, resp, currentMethod, currentId, methodState, ignore, decision, retransWhile,
        retransCount > maxRetrans)
    }

    /** The machine is about to follow a null pointer, and nothing but the lower layer can prevent it. */
    ghost predicate WillHalt()
      reads this
    {
      !m && Answers(Upcoming(state, eapol, retransWhile, retransCount > maxRetrans, resp, eapRespData), currentMethod, currentId, methodState)
    }

    /** The machine is about to read past the end of the response. */
    ghost predicate WillOverrun()
      reads this
    {
      var upcoming := Upcoming(state, eapol, retransWhile, retransCount > maxRetrans, resp, eapRespData);
      var due := NakDue(state, eapol, backendAuth, upcoming, resp, ParseResp(eapRespData), currentId, methodState, index);
      due.Some? && Overruns(user, due.value, NakOffer(eapRespData))
    }

    /** What the transition into these states has established. */
    lemma StateGuards()
      requires Valid() && !halted
      ensures state == PICK_UP_METHOD ==> if m then currentMethod == TYPE_IDENTITY else currentMethod == TYPE_NONE
      ensures state == INTEGRITY_CHECK ==> m
      ensures -1 <= currentId < 256
    {
    }

    /** What a step does: it follows the table, keeps the invariant and lowers the rank.  It follows a
        null pointer exactly if it enters the integrity check without a method; nothing else changes whether
        that is going to happen.  It reads past the end of the response exactly if it enters NAK with a Nak
        that makes it do so.  eapSuccess is set only together with the event. */
    twostate predicate Stepped()
      reads this
    {
      && Valid() && Rank() <= old(Rank()) && (changed ==> Rank() < old(Rank()))
      && (changed <==> !old(Stays(state, eapol, retransWhile)))
      && state == old(Next()) && old(trace) <= trace && eapRespData == old(eapRespData)
      && (halted <==> state == INTEGRITY_CHECK && old(state) == RECEIVED && !old(m)) && (halted ==> !m && !eapol.eapRestart)
      && (halted || WillHalt() <==> old(WillHalt())) && (!changed ==> !WillHalt() && state != METHOD_REQUEST)
      && (overrun <==> state == NAK && old(Overruns(user, index, NakOffer(eapRespData))))
      && (overrun || (changed && WillOverrun()) <==> old(WillOverrun()))
      && (eapol.eapSuccess && !old(eapol.eapSuccess) ==> trace == old(trace) + [Succeeded])
    }

    /** SM_STEP(EAP). */
    method Step()
      requires Valid() && Running() && !changed
      modifies this
      ensures Stepped()
    {
      hide Valid, Answers, Overruns, NakOffer, ParseResp;
      if eapol.eapRestart && eapol.portEnabled {
        EnterInitialize(true);
      } else if !eapol.portEnabled {
        EnterDisabled();
      } else {
        StepState();
      }
    }

    method StepState()
      requires Valid() && Running() && !changed && eapol.portEnabled && !eapol.eapRestart
      modifies this
      ensures Stepped()
    {
      match state
      case DISABLED => StepDisabled();
      case NAK => StepNak();
      case INITIALIZE => StepInitialize();
      case SELECT_ACTION => StepSelectAction();
      case IDLE => StepIdle();
      case RETRANSMIT => StepToIdle();
      case DISCARD => StepToIdle();
      case SEND_REQUEST => StepToIdle();
      case RECEIVED => StepReceived();
      case PICK_UP_METHOD => StepPickUpMethod();
      case INTEGRITY_CHECK => StepIntegrityCheck();
      case METHOD_RESPONSE => StepMethodResponse();
      case SUCCESS =>
      case FAILURE =>
      case TIMEOUT_FAILURE =>
      case _ => StepOther();
    }

    method StepDisabled()
      requires Valid() && Running() && !changed && eapol.portEnabled && !eapol.eapRestart
      requires state == DISABLED
      modifies this
      ensures Stepped()
    {
      hide Valid, Upcoming, Answers, Overruns, NakOffer, Continues, LooksUp, Settled, ParseResp;
      EnterInitialize(false);
    }

    method StepOther()
      requires Valid() && Running() && !changed && eapol.portEnabled && !eapol.eapRestart
      requires state in {METHOD_REQUEST, PROPOSE_METHOD}
      modifies this
      ensures Stepped()
    {
      hide Valid, Upcoming, Answers, Overruns, NakOffer, Continues, LooksUp, Settled, NakDue, ParseResp;
      match state
      case METHOD_REQUEST => EnterSendRequest();
      case PROPOSE_METHOD =>
        var random: byte, built: bool := *, *;
        EnterMethodRequest(random, built);
    }

    method StepNak()
      requires Valid() && Running() && !changed && eapol.portEnabled && !eapol.eapRestart
      requires state == NAK
      modifies this
      ensures Stepped()
    {
      hide Valid, Upcoming, Answers, Overruns, NakOffer, Continues, LooksUp, Settled, NakDue, ParseResp;
      var isSuccess: bool, isDone: bool, found: Option<User> := *, *, *;
      EnterSelectAction(isSuccess, isDone, found);
    }

    method StepIdle()
      requires Valid() && Running() && !changed && eapol.portEnabled && !eapol.eapRestart
      requires state == IDLE
      modifies this
      ensures Stepped()
    {
      hide Valid, ParseResp, Overruns, NakOffer;
      if retransWhile == 0 {
        EnterPlain(RETRANSMIT);
      } else if eapol.eapResp {
        EnterReceived();
      }
    }

    method StepToIdle()
      requires Valid() && Running() && !changed && eapol.portEnabled && !eapol.eapRestart
      requires state in {RETRANSMIT, DISCARD, SEND_REQUEST}
      modifies this
      ensures Stepped()
    {
      hide Valid, ParseResp, Overruns, NakOffer;
      match state
      case RETRANSMIT => if retransCount > maxRetrans { EnterPlain(TIMEOUT_FAILURE); } else { EnterIdle(); }
      case DISCARD => EnterIdle();
      case SEND_REQUEST => EnterIdle();
    }

    method StepReceived()
      requires Valid() && Running() && !changed && eapol.portEnabled && !eapol.eapRestart
      requires state == RECEIVED
      modifies this
      ensures Stepped()
    {
      hide Valid, ParseResp, Overruns, NakOffer;
      if resp.rx && resp.id == currentId && (resp.kind == TYPE_NAK || resp.kind == TYPE_EXPANDED_NAK)
        && methodState == METHOD_PROPOSED {
        EnterNak();
      } else {
        StepNoNak();
      }
    }

    method StepNoNak()
      requires Valid() && Running() && !changed && eapol.portEnabled && !eapol.eapRestart
      requires state == RECEIVED && !(IsNakResponse(resp) && resp.id == currentId && methodState == METHOD_PROPOSED)
      modifies this
      ensures Stepped()
    {
      hide Valid, ParseResp, Overruns, NakOffer;
      if resp.rx && resp.id == currentId && resp.kind == currentMethod {
        var check: Option<bool> := *;
        EnterIntegrityCheck(check);
      } else {
        EnterDiscard();
      }
    }

    method StepInitialize()
      requires Valid() && Running() && !changed && eapol.portEnabled && !eapol.eapRestart
      requires state == INITIALIZE
      modifies this
      ensures Stepped()
    {
      hide Valid, Upcoming, Answers, Overruns, NakOffer, Continues, LooksUp, Settled, ParseResp;
      if backendAuth && resp.rx {
        if resp.kind == TYPE_NAK || resp.kind == TYPE_EXPANDED_NAK {
          EnterNak();
        } else {
          var hasPickUp: bool, started: bool := *, *;
          EnterPickUpMethod(hasPickUp, started);
        }
      } else {
        var isSuccess: bool, isDone: bool, found: Option<User> := *, *, *;
        EnterSelectAction(isSuccess, isDone, found);
      }
    }

    method StepPickUpMethod()
      requires Valid() && Running() && !changed && eapol.portEnabled && !eapol.eapRestart
      requires state == PICK_UP_METHOD
      modifies this
      ensures Stepped()
    {
      hide Valid, Upcoming, Answers, Overruns, NakOffer, Continues, LooksUp, Settled, NakDue, ParseResp;
      StateGuards();
      if currentMethod == TYPE_NONE {
        var isSuccess: bool, isDone: bool, found: Option<User> := *, *, *;
        EnterSelectAction(isSuccess, isDone, found);
      } else {
        var p: Processing := *;
        EnterMethodResponse(p);
      }
    }

    method StepMethodResponse()
      requires Valid() && Running() && !changed && eapol.portEnabled && !eapol.eapRestart
      requires state == METHOD_RESPONSE
      modifies this
      ensures Stepped()
    {
      hide Valid, Upcoming, Answers, Overruns, NakOffer, Continues, LooksUp, Settled, NakDue, ParseResp;
      if methodState == METHOD_END {
        var isSuccess: bool, isDone: bool, found: Option<User> := *, *, *;
        EnterSelectAction(isSuccess, isDone, found);
      } else {
        var random: byte, built: bool := *, *;
        EnterMethodRequest(random, built);
      }
    }

    method StepIntegrityCheck()
      requires Valid() && Running() && !changed && eapol.portEnabled && !eapol.eapRestart
      requires state == INTEGRITY_CHECK
      modifies this
      ensures Stepped()
    {
      hide Valid, Upcoming, Answers, Overruns, NakOffer, Continues, LooksUp, Settled, NakDue, ParseResp;
      StateGuards();
      if ignore {
        EnterDiscard();
      } else {
        var p: Processing := *;
        EnterMethodResponse(p);
      }
    }

    method StepSelectAction()
      requires Valid() && Running() && !changed && eapol.portEnabled && !eapol.eapRestart
      requires state == SELECT_ACTION
      modifies this
      ensures Stepped()
    {
      hide Valid, Upcoming, Answers, Overruns, NakOffer, Continues, LooksUp, Settled, NakDue, ParseResp;
      if decision == DECISION_FAILURE {
        EnterFailure();
      } else if decision == DECISION_SUCCESS {
        EnterSuccess();
      } else {
        var started: bool := *;
        EnterProposeMethod(started);
      }
    }

    /** The body of the loop of eap_sm_step. */
    method StepOnce()
      requires Valid() && Running()
      modifies this
      ensures Valid() && Rank() <= old(Rank()) && (changed ==> Rank() < old(Rank()))
      ensures changed <==> !old(Stays(state, eapol, retransWhile))
      ensures old(trace) <= trace && (!changed ==> state != METHOD_REQUEST) && eapRespData == old(eapRespData)
      ensures (halted || WillHalt() <==> old(WillHalt())) && (!changed ==> !WillHalt())
      ensures overrun || (changed && WillOverrun()) <==> old(WillOverrun())
      ensures halted ==> state == INTEGRITY_CHECK && !m && !overrun && !eapol.eapRestart
      ensures overrun ==> state == NAK
      ensures eapol.eapSuccess && !old(eapol.eapSuccess) ==> trace == old(trace) + [Succeeded]
    {
      hide SafeTrace, PhaseOf, IdsOf, Identifiers, Consistent, RankOf, Target, Answers, Upcoming, NakDue, Overruns, NakOffer, ParseResp;
      changed := false;
      Step();
    }

    /** Without a method in these states, the one proposed last could not be set up. */
    lemma NoMethod()
      requires Valid() && Waiting(state) && !m
      ensures exists e, i :: ProposedAt(trace, e, i) && !e.present
    {
      hide SafeTrace, IdsOf, Identifiers;
      PhaseMeaning(trace);
    }

    lemma AllEarned(n: nat)
      requires Valid() && n < |trace| && trace[n].Succeeded?
      ensures Earned(trace, n)
    {
      hide Earned, SafeTrace;
      SuccessIsJustified(trace, backendAuth, n);
    }

    /** eap_sm_step: every call comes to an end and keeps the run safe.  It ends by following a null
        pointer exactly if a response to the current request arrives while there is no method, and
        then the method proposed last could not be set up.  It ends by reading past the end of the
        response exactly if it comes to process a Nak without an end that leaves out a method of the
        user.  When it sets eapSuccess, that is earned. */
    method StepAll() returns (res: bool)
      requires Valid() && Running()
      modifies this
      ensures Valid() && old(trace) <= trace && eapReqData.None? && eapRespData == old(eapRespData)
      ensures res <==> !old(Stays(state, eapol, retransWhile))
      ensures halted <==> old(WillHalt())
      ensures overrun <==> old(WillOverrun())
      ensures halted ==> exists e, i :: ProposedAt(trace, e, i) && !e.present
      ensures eapol.eapSuccess && !old(eapol.eapSuccess) ==> exists n :: |old(trace)| <= n && Earned(trace, n)
    {
      hide SafeTrace, PhaseOf, IdsOf, Identifiers, Consistent, RankOf, Target, Answers, Upcoming, NakDue, Overruns, NakOffer, ParseResp,
        Earned, ProposedAt;
      res := false;
      changed := true;
      ghost var n, first := -1, true;
      while changed && Running()
        invariant Valid() && old(trace) <= trace && (!changed ==> state != METHOD_REQUEST) && eapRespData == old(eapRespData)
        invariant (halted || WillHalt() <==> old(WillHalt())) && (!changed ==> !WillHalt())
        invariant overrun || (changed && WillOverrun()) <==> old(WillOverrun())
        invariant halted ==> state == INTEGRITY_CHECK && !m && !overrun && !eapol.eapRestart
        invariant overrun ==> state == NAK
        invariant if first then !res && state == old(state) && eapol == old(eapol) && retransWhile == old(retransWhile) && Running() && changed
          else (changed ==> res) && (res <==> !old(Stays(state, eapol, retransWhile)))
        invariant eapol.eapSuccess && !old(eapol.eapSuccess) ==> |old(trace)| <= n < |trace| && trace[n].Succeeded?
        decreases Rank(), changed
      {
        ghost var before, s := trace, eapol.eapSuccess;
        StepOnce();
        if eapol.eapSuccess && !s { n := |before|; }
        if changed { res := true; }
        first := false;
      }
      NothingDue();
      if halted { NoMethod(); }
      if eapol.eapSuccess && !old(eapol.eapSuccess) { AllEarned(n); }
    }

    /** Where a call has stopped early, neither the other failure is ahead nor a request waiting. */
    lemma NothingDue()
      ensures state == INTEGRITY_CHECK && !eapol.eapRestart ==> !WillOverrun()
      ensures state == NAK ==> !WillHalt()
    {
    }

    /** What the lower layer does, between two calls, to the variables it shares with the machine. */
    method LowerLayer(e: Eapol, data: Option<seq<byte>>, timer: int)
      requires Valid() && eapReqData.None?
      modifies this`eapol, this`eapRespData, this`retransWhile
      ensures Valid() && eapol == e && eapRespData == data && retransWhile == timer
    {
      hide SafeTrace, PhaseOf, IdsOf, Identifiers;
      eapol, eapRespData, retransWhile := e, data, timer;
    }

    /** eap_sm_notify_cached. */
    method NotifyCached()
      requires Valid() && eapReqData.None?
      modifies this`state
      ensures Valid() && state == SUCCESS
    {
      hide SafeTrace, PhaseOf, IdsOf, Identifiers;
      state := SUCCESS;
    }

    /** What the lower layer does, and then eap_sm_step. */
    method Feed(input: Input)
      requires Valid() && Running() && eapReqData.None?
      modifies this
      ensures Valid() && old(trace) <= trace && eapReqData.None? && eapRespData == input.data
      ensures halted <==> !old(m) && Answers(Upcoming(if input.cached then SUCCESS else old(state), input.eapol, input.timer,
          old(retransCount) > maxRetrans, old(resp), input.data), old(currentMethod), old(currentId), old(methodState))
      ensures halted ==> exists i :: 0 <= i < |trace| && trace[i].Proposed? && !trace[i].present
      ensures overrun ==> ShortNak(input.data)
      ensures eapol.eapSuccess && !input.eapol.eapSuccess ==> exists n :: |old(trace)| <= n && Earned(trace, n)
    {
      hide SafeTrace, PhaseOf, IdsOf, Identifiers, Consistent, WillOverrun, Earned, NakOffer, ShortNak, Upcoming, Answers, Stays;
      LowerLayer(input.eapol, input.data, input.timer);
      if input.cached { NotifyCached(); }
      OverrunMeans();
      var res := StepAll();
      if halted { ghost var e, i :| ProposedAt(trace, e, i) && !e.present; }
    }

    /** Any number of calls of eap_sm_step, before each of which the lower layer does anything but set
        eapSuccess.  The run follows a null pointer only if a method it proposed could not be set up,
        reads past the end of a response only if it was given a Nak whose length field is too
        short, and otherwise takes all its inputs; at the end eapSuccess is set only if that was earned. */
    method Run(inputs: seq<Input>) returns (taken: nat)
      requires Valid() && Running() && !eapol.eapSuccess && eapReqData.None?
      modifies this
      ensures Valid() && old(trace) <= trace && taken <= |inputs| && (Running() ==> taken == |inputs|)
      ensures taken > 0 ==> eapRespData == inputs[taken - 1].data
      ensures halted ==> exists i :: 0 <= i < |trace| && trace[i].Proposed? && !trace[i].present
      ensures overrun ==> taken > 0 && ShortNak(inputs[taken - 1].data)
      ensures eapol.eapSuccess ==> exists n :: |old(trace)| <= n && Earned(trace, n)
    {
      hide Valid, Earned, ShortNak, Answers, Upcoming;
      taken := 0;
      while taken < |inputs|
        invariant Valid() && old(trace) <= trace && Running() && eapReqData.None? && taken <= |inputs|
        invariant taken > 0 ==> eapRespData == inputs[taken - 1].data
        invariant eapol.eapSuccess ==> exists n :: |old(trace)| <= n && Earned(trace, n)
      {
        var input := inputs[taken];
        taken := taken + 1;
        ghost var before := trace;
        Feed(input.(eapol := input.eapol.(eapSuccess := input.eapol.eapSuccess && eapol.eapSuccess)));
        EarnedBefore(before, trace);
        if !Running() { return; }
      }
    }

    lemma OverrunMeans()
      ensures WillOverrun() ==> ShortNak(eapRespData)
    {
      hide Upcoming, NakDue, AllListed;
    }

    // ---------- runs that show what can happen ----------

    /** Without a method nothing is sent, and the machine waits for a response all the same. */
    method ProposeInVain()
      requires Valid() && !m && state == PROPOSE_METHOD && eapol.portEnabled && !eapol.eapRestart
      modifies this`state, this`changed, this`currentId, this`lastId, this`eapol, this`eapReqData, this`retransCount, this`retransWhile, this`trace
      ensures Valid() && state == IDLE && retransWhile == 1 && currentId == old(currentId) && eapReqData.None?
      ensures eapol.portEnabled && !eapol.eapRestart
    {
      hide Valid;
      EnterMethodRequest(0, false);
      EnterSendRequest();
      EnterIdle();
    }

    /** The init callback of a method that follows the identity exchange fails, the peer answers the
        identity request once more without a type, and the machine follows a null pointer. */
    method FailedInit()
      requires Valid() && Running() && state == SELECT_ACTION && decision == DECISION_CONTINUE && eapol.portEnabled && !eapol.eapRestart
      requires identity && 0 <= currentId && HasMethod(user, index) && user.value.methods[index] in methods
      modifies this
      ensures halted
    {
      hide Valid;
      assert Next() == PROPOSE_METHOD;
      EnterProposeMethod(false);
      ProposeInVain();
      AnswerBare();
    }

    method AnswerBare()
      requires Valid() && Running() && state == IDLE && !m && currentMethod == TYPE_NONE && 0 <= currentId && eapReqData.None?
      modifies this
      ensures halted
    {
      hide Valid, ParseResp, ProposedAt, Earned, Overruns, NakOffer, NakDue;
      StateGuards();
      BareResponse(currentId);
      LowerLayer(Eapol(true, false, true, false, false, false, false, false), Some([CODE_RESPONSE, currentId, 0, 4]), 1);
      var res := StepAll();
    }

    /** A Nak whose length field is 4, while a proposed method waits for its response and the user has
        another one, makes the machine read past the end of the response. */
    method ShortNakReceived()
      requires Valid() && Running() && state == IDLE && methodState == METHOD_PROPOSED && eapReqData.None?
      requires 0 <= currentId && HasMethod(user, index) && !user.value.phase2
      modifies this
      ensures overrun
    {
      hide Valid, ParseResp, ProposedAt, Earned, NakOffer, Answers;
      StateGuards();
      ShortNakResponse(currentId);
      LowerLayer(Eapol(true, false, true, false, false, false, false, false), Some([CODE_RESPONSE, currentId, 0, 4, TYPE_NAK]), 1);
      assert user.value.methods[index..][0] == user.value.methods[index];
      var res := StepAll();
    }

    /** The lower layer asks for a start.  Each entry from here on is the one that the table leads to. */
    method Restart()
      requires Valid() && eapReqData.None? && !backendAuth
      modifies this
      ensures Valid() && halted == old(halted) && overrun == old(overrun) && identity == old(identity) && eapReqData.None?
      ensures eapol.portEnabled && !eapol.eapRestart && state == INITIALIZE && !m && currentId == -1 && lastId == old(lastId)
      ensures trace == old(trace) + [Started]
    {
      hide Valid, ParseResp;
      LowerLayer(Eapol(true, true, false, false, false, false, false, false), None, 1);
      assert Next() == INITIALIZE;
      EnterInitialize(true);
    }

    /** Then the identity method is proposed. */
    method ProposeIdentity()
      requires Valid() && Running() && !backendAuth && TYPE_IDENTITY in methods && !identity && eapReqData.None?
      modifies this
      ensures Valid() && Running() && !identity && eapReqData.None? && eapol.portEnabled && !eapol.eapRestart
      ensures state == PROPOSE_METHOD && m && currentMethod == TYPE_IDENTITY && methodState == METHOD_CONTINUE && updateUser
      ensures currentId == -1 && lastId == old(lastId)
      ensures trace == old(trace) + [Started, Proposed(TYPE_IDENTITY, true)]
    {
      hide Valid;
      Restart();
      assert Next() == SELECT_ACTION;
      EnterSelectAction(false, false, None);
      assert Next() == PROPOSE_METHOD;
      EnterProposeMethod(true);
    }

    /** The request of the method just proposed, and the wait for its response. */
    method RequestAndWait(random: byte, built: bool)
      requires Valid() && m && state == PROPOSE_METHOD && eapol.portEnabled && !eapol.eapRestart
      modifies this`state, this`changed, this`currentId, this`lastId, this`eapol, this`eapReqData, this`retransCount, this`retransWhile, this`trace
      ensures Valid() && state == IDLE && eapReqData.None? && -1 <= old(currentId) < 256 && 0 <= old(lastId) < 256
      ensures currentId == lastId == NextId(old(currentId), old(lastId), random)
      ensures trace == old(trace) + [Requested(lastId, built)] + if built then [Sent(lastId)] else []
    {
      hide Valid, NextId;
      assert Next() == METHOD_REQUEST;
      EnterMethodRequest(random, built);
      assert Next() == SEND_REQUEST;
      EnterSendRequest();
      assert Next() == IDLE;
      EnterIdle();
    }

    /** A start up to the point where the machine waits for a response.  Any identifier other than the
        last one can be that of the request, and the request is sent exactly if it could be built. */
    method Attempt(random: byte, built: bool)
      requires Valid() && Running() && !backendAuth && TYPE_IDENTITY in methods && !identity && eapReqData.None?
      requires random != lastId
      modifies this
      ensures Valid() && Running() && !identity && eapReqData.None? && state == IDLE && lastId == random == currentId
      ensures m && currentMethod == TYPE_IDENTITY && methodState == METHOD_CONTINUE && updateUser
      ensures trace == old(trace) + [Started, Proposed(TYPE_IDENTITY, true), Requested(random, built)] + if built then [Sent(random)] else []
    {
      hide Valid;
      ProposeIdentity();
      RequestAndWait(random, built);
    }

    /** The peer answers the current request. */
    method Receive()
      requires Valid() && Running() && state == IDLE && eapReqData.None? && 0 <= currentId && 0 <= currentMethod < 256
      modifies this`eapol, this`eapRespData, this`retransWhile, this`state, this`changed, this`resp
      ensures Valid() && state == RECEIVED && resp == Response(true, currentId, currentMethod) && eapol.portEnabled && !eapol.eapRestart
    {
      hide Valid, ParseResp;
      StateGuards();
      var d := Packet(CODE_RESPONSE, currentId, currentMethod, []);
      ParsePacket(CODE_RESPONSE, currentId, currentMethod, [], []);
      assert d + [] == d;
      LowerLayer(Eapol(true, false, true, false, false, false, false, false), Some(d), 1);
      assert Next() == RECEIVED;
      EnterReceived();
    }

    /** It does, the check passes, and the method is done with the response. */
    method Exchange(p: Processing)
      requires Valid() && Running() && state == IDLE && m && eapReqData.None? && 0 <= currentId && 0 <= currentMethod < 256 && p.isDone
      requires !(IsNak(currentMethod) && methodState == METHOD_PROPOSED)
      modifies this
      ensures Valid() && Running() && state == METHOD_RESPONSE && m && methodState == METHOD_END && eapReqData.None?
      ensures eapol.portEnabled && !eapol.eapRestart && identity == p.identity && user == p.user && index == p.index
      ensures currentMethod == old(currentMethod) && currentId == old(currentId) && updateUser == old(updateUser)
    {
      hide Valid;
      Receive();
      assert Next() == INTEGRITY_CHECK;
      EnterIntegrityCheck(Some(false));
      assert Next() == METHOD_RESPONSE;
      EnterMethodResponse(p);
    }

    /** The method says yes. */
    method Approve()
      requires Valid() && Running() && state == METHOD_RESPONSE && m && methodState == METHOD_END && currentMethod != TYPE_IDENTITY
      requires eapol.portEnabled && !eapol.eapRestart
      modifies this
      ensures Valid() && Running() && state == SUCCESS && eapol.eapSuccess
    {
      hide Valid;
      assert Next() == SELECT_ACTION;
      EnterSelectAction(true, true, None);
      assert Next() == SUCCESS;
      EnterSuccess();
    }

    /** After the identity exchange the user is found, and the first method is proposed. */
    method ProposeFirst(u: User)
      requires Valid() && Running() && state == METHOD_RESPONSE && m && methodState == METHOD_END && eapReqData.None?
      requires currentMethod == TYPE_IDENTITY && identity && 0 <= currentId && updateUser && eapol.portEnabled && !eapol.eapRestart
      requires u.methods[0] in methods && u.methods[0] != TYPE_NONE
      modifies this
      ensures Valid() && Running() && state == IDLE && m && currentMethod == u.methods[0] && 0 <= currentId && identity && eapReqData.None?
    {
      hide Valid;
      assert Next() == SELECT_ACTION;
      EnterSelectAction(true, true, Some(u));
      assert Next() == PROPOSE_METHOD;
      EnterProposeMethod(true);
      RequestAndWait(0, true);
    }
  }

  /** A run from the start of the machine in which the identifier of a request that was sent is that
      of the request sent before, for every identifier: the request between them could not be built. */
  method RepeatAfterLoss(methods: set<int>, id: byte, other: byte) returns (sm: EapSm, ghost i: nat, ghost n: nat)
    requires TYPE_IDENTITY in methods && TYPE_NONE !in methods && id != other
    ensures fresh(sm) && sm.Valid() && sm.Running() && !sm.backendAuth
    ensures i < n < |sm.trace| && sm.trace[i] == Sent(id) == sm.trace[n] && forall l | i < l < n :: !sm.trace[l].Sent?
  {
    hide EapSm.Valid;
    sm := new EapSm(methods, false);
    sm.Attempt(if id == 1 then 2 else 1, false);
    sm.Attempt(id, true);
    ghost var before := sm.trace;
    sm.Attempt(other, false);
    sm.Attempt(id, true);
    i, n := |before| - 1, |sm.trace| - 1;
    SentAgain(before, sm.trace, id, other);
  }

  lemma SentAgain(before: seq<Event>, trace: seq<Event>, id: int, other: int)
    requires before != [] && before[|before| - 1] == Sent(id)
    requires trace == before + [Started, Proposed(TYPE_IDENTITY, true), Requested(other, false)] + []
      + [Started, Proposed(TYPE_IDENTITY, true), Requested(id, true)] + [Sent(id)]
    ensures var i, n := |before| - 1, |trace| - 1;
            i < n && trace[i] == Sent(id) == trace[n] && forall l | i < l < n :: !trace[l].Sent?
  {
    var more := [Started, Proposed(TYPE_IDENTITY, true), Requested(other, false), Started, Proposed(TYPE_IDENTITY, true), Requested(id, true), Sent(id)];
    assert trace == before + more;
  }

  /** And success can be had: a peer that is known and answers, and a method that says yes. */
  method SuccessfulRun(methods: set<int>, u: User, id: byte) returns (sm: EapSm)
    requires TYPE_IDENTITY in methods && TYPE_NONE !in methods && id != 0
    requires u.methods[0] in methods && u.methods[0] != TYPE_IDENTITY && !IsNak(u.methods[0])
    ensures fresh(sm) && sm.Valid() && sm.Running() && sm.state == SUCCESS && sm.eapol.eapSuccess
  {
    hide EapSm.Valid;
    sm := new EapSm(methods, false);
    sm.Attempt(id, true);
    sm.Exchange(Processing(true, None, 0, true, false));
    sm.ProposeFirst(u);
    sm.Exchange(Processing(true, Some(u), 1, true, true));
    sm.Approve();
  }
}
