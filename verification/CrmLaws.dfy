/** What the event consumer does, said from the outside: which answer an event gets, what becomes of the record
    it is about, and who may change it. Nothing here is stated through the functions that compute it. */
module CrmLaws {
  import opened CrmPayload
  import opened CrmSync
  import opened Options

  // ---------------------------------------------------------------- the answer to an event

  /** A BREERO event of a known type and version, without a forbidden key at any depth. */
  ghost predicate Presentable(config: Config, e: Envelope) {
    Known(e) && forall path :: !ForbiddenAt(config.lower, e.payload, path)
  }

  ghost predicate Known(e: Envelope) {
    && e.Envelope? && e.source == "breero" && e.schemaVersion == 1
    && e.eventType in {"breero.service_request.created", "breero.service_request.updated",
                       "breero.contact_request.created", "breero.provider_interest.created",
                       "breero.booking.created", "breero.booking.status_changed",
                       "breero.quote.created", "breero.quote.status_changed",
                       "breero.lead_dispute.created", "breero.lead_dispute.resolved",
                       "breero.customer.updated", "breero.provider.updated"}
  }

  /** The ledger has a row with the event's id or its idempotency key. */
  ghost predicate Received(ledger: seq<Row>, e: Envelope)
    requires e.Envelope?
  {
    exists i :: 0 <= i < |ledger| && (ledger[i].eventId == e.eventId || ledger[i].idempotencyKey == e.idempotencyKey)
  }

  /** The ledger has a row for this version of the aggregate under this event type. */
  ghost predicate VersionReceived(ledger: seq<Row>, e: Envelope)
    requires e.Envelope?
  {
    exists i :: 0 <= i < |ledger| && ledger[i].eventType == e.eventType && ledger[i].aggregateId == e.aggregateId &&
                ledger[i].aggregateVersion == e.aggregateVersion
  }

  /** Nothing, zero, or empty. */
  ghost predicate Blank(p: Payload) {
    p == Nil || p == Bool(false) || p == Number(0.0) || p == Str("") || p == List([]) || p == Dict(map[])
  }

  /** `p` is a dictionary with value `v` under `key`, or without the key and `v` is nothing. */
  ghost predicate Holds(p: Payload, key: string, v: Payload) {
    p.Dict? && if key in p.entries then v == p.entries[key] else v == Nil
  }

  /** `p` is what the event is about: its payload, or the payload inside that. */
  ghost predicate Carries(e: Envelope, p: Payload) {
    && e.Envelope? && e.payload.Dict? && p.Dict?
    && if "payload" in e.payload.entries then p == e.payload.entries["payload"] else p == e.payload
  }

  ghost predicate IsDisputeEvent(e: Envelope) {
    e.Envelope? && (e.eventType == "breero.lead_dispute.created" || e.eventType == "breero.lead_dispute.resolved")
  }

  ghost predicate IsContactEvent(e: Envelope) {
    e.Envelope? && e.eventType == "breero.contact_request.created"
  }

  ghost predicate IsProviderEvent(e: Envelope) {
    e.Envelope? && e.eventType == "breero.provider_interest.created"
  }

  /** The event carries a dictionary that its columns can take, and a disputed amount, if any, is a number. */
  ghost predicate CanRoute(config: Config, e: Envelope) {
    && e.Envelope? && config.storable(e.(occurredAt := ""))
    && exists p :: Carries(e, p) &&
                   (IsDisputeEvent(e) ==>
                      forall v | Holds(p, "amount_minor", v) :: v.Number? || v.Bool? || Blank(v))
  }

  lemma KnownKinds(e: Envelope)
    requires Known(e)
    ensures IsContact(e) <==> IsContactEvent(e)
    ensures IsDispute(e) <==> IsDisputeEvent(e)
    ensures IsProviderInterest(e) <==> IsProviderEvent(e)
    ensures IsContactEvent(e) ==> !IsDisputeEvent(e) && !IsProviderEvent(e)
    ensures IsDisputeEvent(e) ==> !IsProviderEvent(e)
  {
    var t := e.eventType;
    assert t[7] == 's' || t[7] == 'c' || t[7] == 'p' || t[7] == 'b' || t[7] == 'q' || t[7] == 'l';
    assert "breero.contact_request"[7] == 'c' && "breero.lead_dispute"[7] == 'l' &&
           "breero.provider_interest"[7] == 'p';
    assert "breero.contact_request"[8] == 'o' && "breero.provider_interest"[15] == '_';
  }

  lemma CanRouteExactly(config: Config, e: Envelope)
    requires Known(e)
    ensures Routable(config, e) <==> CanRoute(config, e)
  {
    KnownKinds(e);
    hide Known, IsContact, IsDispute, IsProviderInterest, IsDisputeEvent;
    if e.payload.Dict? {
      var p := Inner(e.payload);
      assert p.Dict? ==> Carries(e, p);
      if p.Dict? {
        var v := Get(p, "amount_minor");
        assert Holds(p, "amount_minor", v);
        TruthyIsNotBlank(v);
      }
    }
  }

  lemma TruthyIsNotBlank(p: Payload)
    ensures Truthy(p) <==> !Blank(p)
  {
  }

  lemma ScreenExactly(config: Config, integration: bool, e: Envelope)
    ensures Screen(config, integration, e).None? <==> integration && Presentable(config, e)
    ensures Screen(config, integration, e).Some? ==>
              Screen(config, integration, e).value in
              {AccessError, InvalidEnvelope, UnsupportedSource, UnsupportedType, ForbiddenField}
  {
    if e.Envelope? {
      ForbiddenAtAnyDepth(config.lower, e.payload);
    }
    hide ContainsForbidden, ForbiddenAt;
  }

  lemma ReceivedExactly(ledger: seq<Row>, e: Envelope)
    requires e.Envelope?
    ensures Existing(ledger, e).Some? <==> Received(ledger, e)
    ensures RowClashes(ledger, e) <==> Received(ledger, e) || VersionReceived(ledger, e)
  {
    hide Existing;
    if Received(ledger, e) {
      var i :| 0 <= i < |ledger| && (ledger[i].eventId == e.eventId || ledger[i].idempotencyKey == e.idempotencyKey);
      assert ledger[i] in ledger && Matches(ledger[i], e);
    }
    if VersionReceived(ledger, e) {
      var i :| 0 <= i < |ledger| && ledger[i].eventType == e.eventType && ledger[i].aggregateId == e.aggregateId &&
               ledger[i].aggregateVersion == e.aggregateVersion;
      assert SameVersion(ledger[i], e);
    }
  }

  /** Every answer, and exactly when it is given. A delivery that is not accepted leaves the store alone. */
  lemma AnswersExactly(config: Config, s: Store, integration: bool, e: Envelope)
    requires Good(s)
    ensures var (s', answer) := Deliver(config, s, integration, e);
            && (answer == AccessError <==> !integration)
            && (answer == InvalidEnvelope <==> integration && e.NotAnEnvelope?)
            && (answer == UnsupportedSource <==>
                  integration && e.Envelope? && (e.source != "breero" || e.schemaVersion != 1))
            && (answer == UnsupportedType <==>
                  integration && e.Envelope? && e.source == "breero" && e.schemaVersion == 1 && !Known(e))
            && (answer == ForbiddenField <==> integration && Known(e) && !Presentable(config, e))
            && (answer == ConstraintViolated <==> integration && Presentable(config, e) && !Received(s.ledger, e) &&
                                                  VersionReceived(s.ledger, e))
            && (answer == RoutingFailed <==> integration && Presentable(config, e) && !Received(s.ledger, e) &&
                                             !VersionReceived(s.ledger, e) && !CanRoute(config, e))
            && (answer.Ack? || answer == PayloadConflict <==>
                  integration && Presentable(config, e) &&
                  (Received(s.ledger, e) || (!VersionReceived(s.ledger, e) && CanRoute(config, e))))
            && (Accepts(config, s, integration, e) <==>
                  integration && Presentable(config, e) && !Received(s.ledger, e) &&
                  !VersionReceived(s.ledger, e) && CanRoute(config, e))
            && (!Accepts(config, s, integration, e) ==> s' == s)
  {
    ScreenExactly(config, integration, e);
    if Known(e) {
      CanRouteExactly(config, e);
    }
    AcceptsExactly(config, s, integration, e);
    DeliverEffect(config, s, integration, e);
    RouteWorks(config, s, e);
    if e.Envelope? {
      ReceivedExactly(s.ledger, e);
      ForbiddenAtAnyDepth(config.lower, e.payload);
      assert Known(e) <==> e.source == "breero" && e.schemaVersion == 1 && e.eventType in ALLOWED_EVENTS;
    }
    hide ContainsForbidden, ForbiddenAt, Existing, RowClashes, Received, VersionReceived, Route, RoutedWell, Routable,
         Good,
         CanRoute, Known;
  }

  // ---------------------------------------------------------------- an event that was received before

  /** Step `k` of the run is an accepted delivery of an event with the event id or the idempotency key of `f`. */
  ghost predicate Precedes(config: Config, run: seq<Action>, k: nat, f: Envelope)
    requires k < |run| && f.Envelope?
  {
    && run[k].Delivery? && run[k].envelope.Envelope?
    && Accepts(config, After(config, run[..k]), run[k].integration, run[k].envelope)
    && (run[k].envelope.eventId == f.eventId || run[k].envelope.idempotencyKey == f.idempotencyKey)
  }

  lemma ExistingSnoc(ledger: seq<Row>, row: Row, f: Envelope)
    requires f.Envelope?
    ensures Existing(ledger + [row], f) == if Matches(row, f) then Some(row) else Existing(ledger, f)
  {
    assert (ledger + [row])[..|ledger|] == ledger;
  }

  /** The row of the last such delivery is the one a later search finds. */
  lemma {:induction false} LastPrecedingIsFound(config: Config, run: seq<Action>, k: nat, n: nat, f: Envelope)
    returns (row: Row)
    requires k < n <= |run| && f.Envelope? && Precedes(config, run, k, f)
    requires forall l | k < l < n :: !Precedes(config, run, l, f)
    ensures Existing(After(config, run[..n]).ledger, f) == Some(row)
    ensures row == RowFor(config, run[k].envelope, row.model, row.recordId)
    ensures Deliver(config, After(config, run[..k]), run[k].integration, run[k].envelope).1 == AckOf(row)
    decreases n
  {
    hide After, Accepts, Deliver, Existing, Good;
    EveryStoreIsGood(config, run[..n - 1]);
    AfterStep(config, run, n - 1);
    var s, a := After(config, run[..n - 1]), run[n - 1];
    if n == k + 1 {
      row := AcceptedRow(config, s, a.integration, a.envelope);
      ExistingSnoc(s.ledger, row, f);
    } else {
      row := LastPrecedingIsFound(config, run, k, n - 1, f);
      LedgerStep(config, s, a, f);
      assert !Precedes(config, run, n - 1, f);
    }
  }

  /** A step adds to the ledger nothing, or the row of the event it accepts. */
  lemma LedgerStep(config: Config, s: Store, a: Action, f: Envelope)
    requires Good(s) && f.Envelope?
    ensures !(a.Delivery? && Accepts(config, s, a.integration, a.envelope)) ==> Next(config, s, a).ledger == s.ledger
    ensures a.Delivery? && Accepts(config, s, a.integration, a.envelope) ==> a.envelope.Envelope?
    ensures a.Delivery? && Accepts(config, s, a.integration, a.envelope) &&
            a.envelope.eventId != f.eventId && a.envelope.idempotencyKey != f.idempotencyKey ==>
              Existing(Next(config, s, a).ledger, f) == Existing(s.ledger, f)
  {
    hide Existing;
    if a.Delivery? {
      DeliverEffect(config, s, a.integration, a.envelope);
      hide Deliver, Good, Route, RoutedWell;
      if Accepts(config, s, a.integration, a.envelope) {
        hide Accepts;
        var row := AcceptedRow(config, s, a.integration, a.envelope);
        ExistingSnoc(s.ledger, row, f);
      }
    }
  }

  /** An event that shares its id or its idempotency key with events accepted before is judged by the last of
      them: it gets that event's acknowledgement if the digests of the payloads agree, and a conflict otherwise. Either
      way the store stays as it is. */
  lemma JudgedByTheLast(config: Config, run: seq<Action>, k: nat, f: Envelope)
    requires k < |run| && Presentable(config, f) && Precedes(config, run, k, f)
    requires forall l | k < l < |run| :: !Precedes(config, run, l, f)
    ensures var first := Deliver(config, After(config, run[..k]), run[k].integration, run[k].envelope).1;
            var (s', answer) := Deliver(config, After(config, run), true, f);
            && s' == After(config, run) && first.Ack?
            && (config.digest(f.payload) == config.digest(run[k].envelope.payload) ==> answer == first)
            && (config.digest(f.payload) != config.digest(run[k].envelope.payload) ==> answer == PayloadConflict)
  {
    ScreenExactly(config, true, f);
    assert f.Envelope?;
    hide After, Accepts, Existing, Screen, Presentable, Precedes, Route, RowClashes;
    var row := LastPrecedingIsFound(config, run, k, |run|, f);
    assert run[..|run|] == run;
  }

  lemma RowsHaveOneMatch(config: Config, run: seq<Action>, j: nat, l: nat, f: Envelope)
    requires j < l < |run| && f.Envelope? && Precedes(config, run, j, f) && run[l].Delivery? &&
             run[l].envelope.Envelope?
    requires run[j].envelope.eventId == f.eventId && run[j].envelope.idempotencyKey == f.idempotencyKey
    ensures !Precedes(config, run, l, f)
  {
    if Precedes(config, run, l, f) {
      EveryStoreIsGood(config, run[..l]);
      assert run[..l][..j] == run[..j] && run[..l][j] == run[j];
      hide After, Good, Existing, RowClashes;
      var row := RowIsKept(config, run[..l], j);
      assert false;
    }
  }

  /** An event with the id and the idempotency key of an accepted one gets its acknowledgement, at any later point of
      any run, exactly when the digests of their payloads agree, and a payload conflict otherwise. */
  lemma RedeliveryIsJudgedByDigest(config: Config, run: seq<Action>, j: nat, f: Envelope)
    requires j < |run| && Presentable(config, f) && Precedes(config, run, j, f)
    requires run[j].envelope.eventId == f.eventId && run[j].envelope.idempotencyKey == f.idempotencyKey
    ensures var first := Deliver(config, After(config, run[..j]), run[j].integration, run[j].envelope).1;
            var (s', answer) := Deliver(config, After(config, run), true, f);
            && s' == After(config, run)
            && (answer == first <==> config.digest(f.payload) == config.digest(run[j].envelope.payload))
            && (answer != first ==> answer == PayloadConflict)
  {
    assert f.Envelope?;
    hide Presentable, Deliver, After, Accepts;
    forall l | j < l < |run|
      ensures !Precedes(config, run, l, f)
    {
      if run[l].Delivery? && run[l].envelope.Envelope? {
        RowsHaveOneMatch(config, run, j, l, f);
      }
    }
    hide Precedes;
    JudgedByTheLast(config, run, j, f);
  }

  // ---------------------------------------------------------------- the record an event is about

  /** `ref` is the submission, else the dispute, else the aggregate that the event names. */
  ghost predicate Refers(e: Envelope, p: Payload, ref: Payload) {
    && e.Envelope?
    && exists submission, dispute ::
         && Holds(e.payload, "submission_id", submission) && Holds(p, "dispute_id", dispute)
         && ref == if !Blank(submission) then submission else if !Blank(dispute) then dispute else Str(e.aggregateId)
  }

  /** The case shows the contact request. */
  ghost predicate ShowsContact(e: Envelope, p: Payload, c: Case) {
    && e.Envelope? && c.caseType == Support && c.eventId == e.eventId
    && (forall v | Holds(p, "subject", v) :: c.name == if Blank(v) then Str("BREERO Contact") else v)
    && Holds(p, "category", c.category) && Holds(p, "message", c.message) && Holds(p, "source_url", c.sourceUrl)
    && (c.category == Str("business") ==> c.team == "team_business")
    && (c.category == Str("provider_question") ==> c.team == "team_provider_recruitment")
    && (c.category != Str("business") && c.category != Str("provider_question") ==> c.team == "team_contact_support")
  }

  /** The mirror fields show the dispute. */
  ghost predicate ShowsDispute(config: Config, p: Payload, m: Mirrors) {
    && Holds(p, "lead_id", m.leadId) && Holds(p, "dispute_id", m.disputeId) && Holds(p, "provider_id", m.providerId)
    && Holds(p, "reason", m.reason) && Holds(p, "submitted_at", m.submittedAt) && Holds(p, "deadline_at", m.deadlineAt)
    && Holds(p, "status", m.status) && Holds(p, "purchase_id", m.authority)
    && (forall v | Holds(p, "amount_minor", v) ::
          && (v.Number? ==> 100.0 * m.amount == v.n) && (v == Bool(true) ==> 100.0 * m.amount == 1.0)
          && (Blank(v) ==> m.amount == 0.0))
    && (m.currency.Some? ==> m.currency.value in config.currencies)
    && (if "currency" in p.entries
        then forall name | name in config.currencies :: m.currency == Some(name) <==> p.entries["currency"] == Str(name)
        else m.currency == if "USD" in config.currencies then Some("USD") else None)
  }

  /** The lead shows the request. */
  ghost predicate ShowsLead(e: Envelope, p: Payload, lead: Lead) {
    && e.Envelope? && lead.eventId == e.eventId && lead.details == p
    && (IsProviderEvent(e) ==> lead.recordType == "provider_interest" && lead.team == "team_provider_recruitment")
    && (!IsProviderEvent(e) ==> lead.recordType == "service_request" && lead.team == "team_customer_requests")
  }

  lemma ReferenceIs(e: Envelope, p: Payload)
    requires e.Envelope? && e.payload.Dict? && p == Inner(e.payload) && p.Dict?
    ensures Carries(e, p) && Refers(e, p, External(e))
  {
    var submission, dispute := Get(e.payload, "submission_id"), Get(p, "dispute_id");
    assert Holds(e.payload, "submission_id", submission) && Holds(p, "dispute_id", dispute);
    TruthyIsNotBlank(submission);
    TruthyIsNotBlank(dispute);
    hide Truthy, Blank, Holds;
  }

  lemma WrittenContact(base: Case, e: Envelope, partner: nat, p: Payload)
    requires e.Envelope? && e.payload.Dict? && p == Inner(e.payload) && p.Dict?
    ensures ShowsContact(e, p, WriteSupport(base, e, partner))
  {
    TruthyIsNotBlank(Get(p, "subject"));
    hide Truthy, Blank;
  }

  lemma WrittenMirrors(config: Config, e: Envelope, p: Payload)
    requires Routable(config, e) && IsDispute(e) && p == Inner(e.payload)
    ensures ShowsDispute(config, p, MirrorsOf(config, e))
  {
    TruthyIsNotBlank(Get(p, "amount_minor"));
    hide Truthy;
  }

  lemma WrittenLead(e: Envelope, partner: nat, p: Payload)
    requires Known(e) && e.payload.Dict? && p == Inner(e.payload) && p.Dict?
    ensures ShowsLead(e, p, WriteLead(e, partner))
  {
    KnownKinds(e);
    hide Known;
  }

  /** What a case keeps when an event is routed to it. */
  ghost predicate Keeps(before: map<nat, Case>, id: nat, c: Case) {
    && (id in before ==> c.stage == before[id].stage && c.resolution == before[id].resolution)
    && (id !in before ==> c.stage == "new" && c.resolution == Nil)
  }

  /** Where a case about `ref` is, if there is one; otherwise a new place. */
  ghost predicate PlaceFor(cases: map<nat, Case>, caseType: CaseType, ref: Payload, id: nat) {
    if id in cases then cases[id].caseType == caseType && cases[id].external == ref
    else forall other | other in cases :: !(cases[other].caseType == caseType && cases[other].external == ref)
  }

  ghost predicate LeadPlaceFor(leads: map<nat, Lead>, ref: Payload, id: nat) {
    if id in leads then leads[id].request == ref else forall other | other in leads :: leads[other].request != ref
  }

  /** A case goes where one about its reference is, or to a new place, and nothing else moves. */
  lemma CaseIsPlaced(s: Store, looked: Store, caseType: CaseType, ref: Payload, id: nat, c: Case)
    requires Good(s) && IdsBelow(looked) && looked.cases == s.cases && looked.leads == s.leads
    requires c.caseType == caseType && c.external == ref
    requires id == if FindCase(s, caseType, ref).Some? then FindCase(s, caseType, ref).value else looked.nextId
    ensures PlaceFor(s.cases, caseType, ref, id) && PutCase(looked, id, c).Some?
    ensures PutCase(looked, id, c).value.cases == s.cases[id := c] && PutCase(looked, id, c).value.leads == s.leads
  {
    hide FindCase, PutCase, RowsDistinct, Points;
    FindCaseWorks(s, caseType, ref);
    PutCaseWorks(looked, id, c);
  }

  lemma ContactRoute(config: Config, s: Store, e: Envelope, looked: Store, partner: nat, id: nat, base: Case)
    requires Routable(config, e) && IsContact(e) &&
             (looked, partner) == ResolvePartner(config, s, Inner(e.payload), false)
    requires var found := FindCase(s, Support, External(e));
             id == if found.Some? then found.value else looked.nextId
    requires base == if id in looked.cases then looked.cases[id] else NEW_CASE
    ensures Route(config, s, e) == Done(PutCase(looked, id, WriteSupport(base, e, partner)), CaseModel, id)
  {
    hide Routable, IsContact, ResolvePartner, FindCase, PutCase, WriteSupport, External, Inner;
  }

  lemma DisputeRoute(config: Config, s: Store, e: Envelope, looked: Store, partner: nat, id: nat, base: Case)
    requires Routable(config, e) && !IsContact(e) && IsDispute(e)
    requires (looked, partner) == ResolvePartner(config, s, Inner(e.payload), true)
    requires var found := FindCase(s, LeadDispute, External(e));
             id == if found.Some? then found.value else looked.nextId
    requires base == if id in looked.cases then looked.cases[id] else NEW_CASE
    ensures Route(config, s, e) == Done(PutCase(looked, id, WriteDispute(config, base, e, partner)), CaseModel, id)
  {
    hide Routable, IsContact, IsDispute, ResolvePartner, FindCase, PutCase, WriteDispute, External, Inner;
  }

  lemma Accepted(config: Config, s: Store, e: Envelope)
    requires Good(s) && Accepts(config, s, true, e)
    ensures Routable(config, e) && e.Envelope? && e.payload.Dict? && Inner(e.payload).Dict?
    ensures var r, (s', answer) := Route(config, s, e), Deliver(config, s, true, e);
            && r.Routed? && s'.cases == r.store.cases && s'.leads == r.store.leads
            && answer == Ack(e.eventId, true, r.model, r.id)
  {
    DeliverEffect(config, s, true, e);
    RoutableIsLookedUp(config, e);
    hide Route, Deliver, Accepts, Routable, Good, Inner;
  }

  /** An accepted contact request is acknowledged with its support case, which alone changes, and shows the request. */
  lemma ContactIsRecorded(config: Config, s: Store, e: Envelope) returns (p: Payload, ref: Payload, id: nat)
    requires Good(s) && Accepts(config, s, true, e) && Known(e) && IsContactEvent(e)
    ensures Carries(e, p) && Refers(e, p, ref) && PlaceFor(s.cases, Support, ref, id)
    ensures var (s', answer) := Deliver(config, s, true, e);
            && answer == Ack(e.eventId, true, CaseModel, id) && id in s'.cases &&
               s'.cases == s.cases[id := s'.cases[id]]
            && s'.leads == s.leads && s'.cases[id].external == ref && ShowsContact(e, p, s'.cases[id])
            && Keeps(s.cases, id, s'.cases[id])
            && s'.cases[id].mirrors == (if id in s.cases then s.cases[id].mirrors else NO_MIRRORS)
            && s'.cases[id].partner == ResolvePartner(config, s, p, false).1
  {
    hide Route, RoutedWell, ResolvePartner, FindCase, PutCase, MirrorsOf, Routable, Known, Accepts, ShowsContact,
         Deliver,
         External, Inner, Refers, Carries, PlaceFor, RowsDistinct, Points, CasesDistinct, LeadsDistinct;
    Accepted(config, s, e);
    KnownKinds(e);
    p, ref := Inner(e.payload), External(e);
    ReferenceIs(e, p);
    var found := FindCase(s, Support, ref);
    var (looked, partner) := ResolvePartner(config, s, p, false);
    id := if found.Some? then found.value else looked.nextId;
    var base := if id in looked.cases then looked.cases[id] else NEW_CASE;
    var c := WriteSupport(base, e, partner);
    ContactRoute(config, s, e, looked, partner, id, base);
    WrittenContact(base, e, partner, p);
    PartnerOnly(config, s, p, false);
    CaseIsPlaced(s, looked, Support, ref, id, c);
  }

  /** An accepted dispute event is acknowledged with its dispute case, which alone changes, and mirrors the event. */
  lemma DisputeIsRecorded(config: Config, s: Store, e: Envelope) returns (p: Payload, ref: Payload, id: nat)
    requires Good(s) && Accepts(config, s, true, e) && Known(e) && IsDisputeEvent(e)
    ensures Carries(e, p) && Refers(e, p, ref) && PlaceFor(s.cases, LeadDispute, ref, id)
    ensures var (s', answer) := Deliver(config, s, true, e);
            && answer == Ack(e.eventId, true, CaseModel, id) && id in s'.cases &&
               s'.cases == s.cases[id := s'.cases[id]]
            && s'.leads == s.leads && s'.cases[id].external == ref && s'.cases[id].caseType == LeadDispute
            && s'.cases[id].eventId == e.eventId && s'.cases[id].team == "team_lead_disputes"
            && ShowsDispute(config, p, s'.cases[id].mirrors) && Keeps(s.cases, id, s'.cases[id])
            && s'.cases[id].partner == ResolvePartner(config, s, p, true).1
  {
    hide Route, RoutedWell, ResolvePartner, FindCase, PutCase, MirrorsOf, Routable, Known, Accepts, ShowsDispute,
         Deliver,
         External, Inner, Refers, Carries, PlaceFor, RowsDistinct, Points, CasesDistinct, LeadsDistinct;
    Accepted(config, s, e);
    KnownKinds(e);
    p, ref := Inner(e.payload), External(e);
    ReferenceIs(e, p);
    var found := FindCase(s, LeadDispute, ref);
    var (looked, partner) := ResolvePartner(config, s, p, true);
    id := if found.Some? then found.value else looked.nextId;
    var base := if id in looked.cases then looked.cases[id] else NEW_CASE;
    var c := WriteDispute(config, base, e, partner);
    DisputeRoute(config, s, e, looked, partner, id, base);
    WrittenMirrors(config, e, p);
    PartnerOnly(config, s, p, true);
    CaseIsPlaced(s, looked, LeadDispute, ref, id, c);
  }

  /** Every other accepted event is acknowledged with its lead, which alone changes, and shows the request. */
  lemma LeadIsRecorded(config: Config, s: Store, e: Envelope) returns (p: Payload, ref: Payload, id: nat)
    requires Good(s) && Accepts(config, s, true, e) && Known(e) && !IsContactEvent(e) && !IsDisputeEvent(e)
    ensures Carries(e, p) && Refers(e, p, ref) && LeadPlaceFor(s.leads, ref, id)
    ensures var (s', answer) := Deliver(config, s, true, e);
            && answer == Ack(e.eventId, true, LeadModel, id) && id in s'.leads &&
               s'.leads == s.leads[id := s'.leads[id]]
            && s'.cases == s.cases && s'.leads[id].request == ref && ShowsLead(e, p, s'.leads[id])
            && s'.leads[id].partner == ResolvePartner(config, s, p, IsProviderEvent(e)).1
  {
    DeliverEffect(config, s, true, e);
    KnownKinds(e);
    p, ref := Inner(e.payload), External(e);
    ReferenceIs(e, p);
    var found := FindLead(s, ref);
    var (looked, partner) := ResolvePartner(config, s, p, IsProviderInterest(e));
    id := if found.Some? then found.value else looked.nextId;
    var lead := WriteLead(e, partner);
    assert Route(config, s, e) == Done(PutLead(looked, id, lead), LeadModel, id);
    WrittenLead(e, partner, p);
    hide Route, RoutedWell, ResolvePartner, FindLead, PutLead, Routable, Known, Accepts, ShowsLead, Deliver, External,
         Inner,
         Refers, Carries, RowsDistinct, Points;
    PartnerOnly(config, s, p, IsProviderInterest(e));
    FindLeadWorks(s, ref);
    PutLeadWorks(looked, id, lead);
  }

  // ---------------------------------------------------------------- partners

  /** The id under which a payload names its partner. */
  ghost predicate Names(payload: Payload, x: Payload) {
    exists provider, customer :: Holds(payload, "provider_id", provider) && Holds(payload, "customer_id", customer) &&
                                 x == if Blank(provider) then customer else provider
  }

  /** `partner` carries `x` as its provider id, or else as its customer id. */
  ghost predicate Bears(partner: Partner, x: Payload, provider: bool) {
    if provider then partner.providerId == x else partner.customerId == x
  }

  ghost predicate IsNamed(partners: map<nat, Partner>, x: Payload, provider: bool, id: nat) {
    !Blank(x) && id in partners && Bears(partners[id], x, provider)
  }

  /** The partner is the only one with this email. */
  ghost predicate IsSingledOut(partners: map<nat, Partner>, email: string, id: nat) {
    && email != "" && id in partners && partners[id].email == email
    && forall other | other in partners && partners[other].email == email :: other == id
  }

  lemma NamedSet(partners: map<nat, Partner>, x: Payload, provider: bool)
    ensures forall id :: id in PartnersNamed(partners, x, provider) <==> IsNamed(partners, x, provider, id)
  {
    TruthyIsNotBlank(x);
    hide Blank, Truthy;
  }

  lemma SingleSet(partners: map<nat, Partner>, email: string)
    ensures forall id: nat :: PartnersAt(partners, email) == {id} <==> IsSingledOut(partners, email, id)
  {
    var sameEmail := PartnersAt(partners, email);
    forall id: nat
      ensures sameEmail == {id} <==> IsSingledOut(partners, email, id)
    {
      if sameEmail == {id} {
        assert id in sameEmail;
        assert forall other | other in partners && partners[other].email == email :: other in sameEmail;
      }
      if IsSingledOut(partners, email, id) {
        assert sameEmail == {id};
      }
    }
  }

  /** A payload that names an id resolves to the first partner that has it. */
  lemma NamedPartnerIsFound(config: Config, s: Store, payload: Payload, provider: bool, x: Payload, k: nat)
    requires Good(s) && payload.Dict? && Names(payload, x) && IsNamed(s.partners, x, provider, k)
    ensures var (s', id) := ResolvePartner(config, s, payload, provider);
            s' == s && IsNamed(s.partners, x, provider, id) && id <= k
  {
    NamedIs(payload, x);
    NamedSet(s.partners, x, provider);
    LeastId(PartnersNamed(s.partners, x, provider), s.nextId);
    hide Names, IsNamed, PartnersNamed, PartnersAt, ExternalId, FirstId;
  }

  /** Otherwise it resolves to the only partner with its email. */
  lemma SingledOutPartnerIsFound(config: Config, s: Store, payload: Payload, provider: bool, x: Payload, k: nat)
    requires Good(s) && payload.Dict? && Names(payload, x) && IsSingledOut(s.partners, config.email(payload), k)
    requires forall id :: !IsNamed(s.partners, x, provider, id)
    ensures ResolvePartner(config, s, payload, provider) == (s, k)
  {
    NamedIs(payload, x);
    NamedSet(s.partners, x, provider);
    SingleSet(s.partners, config.email(payload));
    hide Names, IsNamed, IsSingledOut, ResolvePartner, PartnersAt;
    assert PartnersNamed(s.partners, x, provider) == {};
    FoundByEmail(config, s, payload, provider, k);
  }

  /** Otherwise it creates one, with its email, and the id it names in the one role and none in the other. */
  lemma OtherwiseItIsNew(config: Config, s: Store, payload: Payload, provider: bool, x: Payload)
    requires Good(s) && payload.Dict? && Names(payload, x)
    requires forall id :: !IsNamed(s.partners, x, provider, id) && !IsSingledOut(s.partners, config.email(payload), id)
    ensures var (s', id) := ResolvePartner(config, s, payload, provider);
            && id == s.nextId && id in s'.partners && s'.partners == s.partners[id := s'.partners[id]]
            && s'.partners[id].email == config.email(payload)
            && Bears(s'.partners[id], x, provider) && Bears(s'.partners[id], Nil, !provider)
  {
    NamedIs(payload, x);
    NamedSet(s.partners, x, provider);
    SingleSet(s.partners, config.email(payload));
    hide Names, IsNamed, IsSingledOut, ExternalId;
    LeastId(PartnersNamed(s.partners, x, provider), s.nextId);
    var sameEmail := PartnersAt(s.partners, config.email(payload));
    if |sameEmail| == 1 {
      var one :| one in sameEmail;
      Singleton(sameEmail, one);
      assert false;
    }
  }

  lemma NamedIs(payload: Payload, x: Payload)
    requires payload.Dict? && Names(payload, x)
    ensures x == ExternalId(payload)
  {
    TruthyIsNotBlank(Get(payload, "provider_id"));
    hide Truthy, Blank;
  }

  lemma LeastId(ids: set<nat>, end: nat)
    requires forall id | id in ids :: id < end
    ensures ids != {} ==> FirstId(ids, 0, end).Some? && forall id | id in ids :: FirstId(ids, 0, end).value <= id
    ensures ids == {} ==> FirstId(ids, 0, end).None?
  {
    NoneBefore(ids, 0, end);
    if ids != {} {
      var id :| id in ids;
    }
  }

  lemma {:induction false} NoneBefore(ids: set<nat>, from: nat, end: nat)
    requires from <= end
    ensures var first := FirstId(ids, from, end);
            first.Some? ==> forall id | id in ids && from <= id :: first.value <= id
    decreases end - from
  {
    if from < end && from !in ids {
      NoneBefore(ids, from + 1, end);
    }
  }

  // ---------------------------------------------------------------- who may change a case

  /** What a write does: without the integration group nothing if it touches what only BREERO may set, nothing if
      it would make two cases about one reference, and otherwise exactly the changes that it names. */
  lemma WritesExactly(s: Store, integration: bool, id: nat, changes: Changes)
    requires id in s.cases
    ensures var s' := WriteCase(s, integration, id, changes);
            var (c, c') := (s.cases[id], (if id in s'.cases then s'.cases[id] else s.cases[id]));
            var caseType := if changes.caseType.Some? then changes.caseType.value else c.caseType;
            var external := if changes.external.Some? then changes.external.value else c.external;
            var refused := !integration && (changes.mirrors.Some? || changes.resolution.Some?);
            var clash :=
              exists k | k in s.cases :: k != id && s.cases[k].caseType == caseType && s.cases[k].external == external;
            && (refused || clash ==> s' == s)
            && (!refused && !clash ==>
                  && id in s'.cases && s'.cases == s.cases[id := c'] && s'.leads == s.leads
                  && s'.partners == s.partners && s'.ledger == s.ledger
                  && c'.caseType == caseType && c'.external == external
                  && c'.stage == (if changes.stage.Some? then changes.stage.value else c.stage)
                  && c'.message == (if changes.message.Some? then changes.message.value else c.message)
                  && c'.mirrors == (if changes.mirrors.Some? then changes.mirrors.value else c.mirrors)
                  && c'.resolution == (if changes.resolution.Some? then changes.resolution.value else c.resolution)
                  && c'.partner == c.partner && c'.team == c.team && c'.name == c.name && c'.eventId == c.eventId
                  && c'.category == c.category && c'.sourceUrl == c.sourceUrl)
  {
  }

  /** A new case is stored as it is, under a new id, unless there is one about the same reference. */
  lemma CreatesExactly(s: Store, c: Case)
    requires Good(s)
    ensures var s', clash := CreateCase(s, c),
                             exists k | k in s.cases :: s.cases[k].caseType == c.caseType &&
                               s.cases[k].external == c.external;
            && (clash ==> s' == s)
            && (!clash ==> s.nextId !in s.cases && s' == s.(cases := s.cases[s.nextId := c], nextId := s.nextId + 1))
  {
  }

  lemma DeliveryKeepsResolution(config: Config, s: Store, integration: bool, e: Envelope, id: nat)
    requires Good(s) && id in s.cases
    ensures id in Deliver(config, s, integration, e).0.cases
    ensures Deliver(config, s, integration, e).0.cases[id].resolution == s.cases[id].resolution
  {
    hide Accepts, Deliver, Known, Good, ShowsContact, ShowsDispute, ShowsLead, Refers, Carries, PlaceFor, LeadPlaceFor,
         Received, VersionReceived, CanRoute, IsContactEvent, IsDisputeEvent, ResolvePartner;
    AnswersExactly(config, s, integration, e);
    if Accepts(config, s, integration, e) {
      if IsContactEvent(e) {
        var p, ref, k := ContactIsRecorded(config, s, e);
      } else if IsDisputeEvent(e) {
        var p, ref, k := DisputeIsRecorded(config, s, e);
      } else {
        var p, ref, k := LeadIsRecorded(config, s, e);
      }
    }
  }

  /** No delivery, user write or new case ever changes the resolution of a case. */
  lemma ResolutionIsKept(config: Config, s: Store, a: Action, id: nat)
    requires Good(s) && id in s.cases
    ensures id in Next(config, s, a).cases && Next(config, s, a).cases[id].resolution == s.cases[id].resolution
  {
    match a
    case Delivery(integration, e) =>
      DeliveryKeepsResolution(config, s, integration, e, id);
    case UserWrite(k, changes) =>
      if k in s.cases {
        WritesExactly(s, false, k, changes);
      }
    case UserCreate(c) =>
  }

  /** In every interleaving the mirror fields of a case show the last accepted dispute event routed to it. */
  lemma MirrorsShowTheLastDispute(config: Config, run: seq<Action>, id: nat) returns (p: Payload)
    requires LastDispute(config, run, id).Some?
    ensures Carries(LastDispute(config, run, id).value, p) && id in After(config, run).cases
    ensures ShowsDispute(config, p, After(config, run).cases[id].mirrors)
  {
    hide After, LastDispute, ShowsDispute, MirrorsOf, IsDispute;
    var e := LastDispute(config, run, id).value;
    MirrorsFollowTheLastDispute(config, run, id);
    p := Inner(e.payload);
    WrittenMirrors(config, e, p);
  }

  // ---------------------------------------------------------------- the sender

  /** The envelope of an event says what the event says, with the defaults of the contract. */
  lemma EnvelopeSays(ev: Event, now: string)
    ensures var e := BuildEnvelope(ev, now);
            && e.Envelope? && e.source == "breero" && e.eventId == ev.id && e.eventType == ev.eventType
            && e.aggregateId == ev.aggregateId
            && e.schemaVersion == (if ev.schemaVersion == None then 1 else ev.schemaVersion.value)
            && e.aggregateVersion == (if ev.aggregateVersion == None then 1 else ev.aggregateVersion.value)
            && e.payload == (if ev.payload == None then Dict(map[]) else ev.payload.value)
            && e.occurredAt == (if ev.createdAt in {None, Some("")} then now else ev.createdAt.value)
            && e.idempotencyKey == (if ev.idempotencyKey in {None, Some("")} then ev.id else ev.idempotencyKey.value)
  {
  }
}
