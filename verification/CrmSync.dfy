/** JSON payloads as Python holds them, and the search for forbidden keys in them. */
module CrmPayload {
  import opened Options

  datatype Payload =
    | Nil
    | Bool(b: bool)
    | Number(n: real)
    | Str(s: string)
    | List(items: seq<Payload>)
    | Dict(entries: map<string, Payload>)

  /** payload.get(key) */
  function Get(p: Payload, key: string): Payload
    requires p.Dict?
  {
    if key in p.entries then p.entries[key] else Nil
  }

  /** Python truth. */
  predicate Truthy(p: Payload) {
    match p
    case Nil => false
    case Bool(b) => b
    case Number(n) => n != 0.0
    case Str(s) => s != ""
    case List(items) => items != []
    case Dict(entries) => entries != map[]
  }

  /** a or b */
  function Or(a: Payload, b: Payload): Payload {
    if Truthy(a) then a else b
  }

  const FORBIDDEN_KEYS: set<string> :=
    {"card_number", "cvc", "password", "access_token", "refresh_token",
     "stripe_secret", "api_key", "webhook_secret", "private_key"}

  predicate ContainsForbidden(lower: string -> string, v: Payload)
    decreases v
  {
    match v
    case Dict(entries) => exists k | k in entries :: lower(k) in FORBIDDEN_KEYS || ContainsForbidden(lower, entries[k])
    case List(items) => exists i | 0 <= i < |items| :: ContainsForbidden(lower, items[i])
    case _ => false
  }

  // ---------------------------------------------------------------- where a key sits

  datatype Step = Key(k: string) | Index(i: nat)

  /** The value reached from `v` by following `path`. */
  function At(v: Payload, path: seq<Step>): Option<Payload>
    decreases |path|
  {
    if path == [] then Some(v)
    else if path[0].Key? && v.Dict? && path[0].k in v.entries then At(v.entries[path[0].k], path[1..])
    else if path[0].Index? && v.List? && path[0].i < |v.items| then At(v.items[path[0].i], path[1..])
    else None
  }

  /** A forbidden key sits in the dictionary at the end of `path`. */
  ghost predicate ForbiddenAt(lower: string -> string, v: Payload, path: seq<Step>) {
    At(v, path).Some? && At(v, path).value.Dict? &&
    exists k | k in At(v, path).value.entries :: lower(k) in FORBIDDEN_KEYS
  }

  lemma {:induction false} FindForbidden(lower: string -> string, v: Payload) returns (path: seq<Step>)
    requires ContainsForbidden(lower, v)
    ensures ForbiddenAt(lower, v, path)
    decreases v
  {
    if v.Dict? {
      var k :| k in v.entries && (lower(k) in FORBIDDEN_KEYS || ContainsForbidden(lower, v.entries[k]));
      if lower(k) in FORBIDDEN_KEYS {
        path := [];
      } else {
        var rest := FindForbidden(lower, v.entries[k]);
        path := [Key(k)] + rest;
        assert path[1..] == rest;
      }
    } else {
      var i :| 0 <= i < |v.items| && ContainsForbidden(lower, v.items[i]);
      var rest := FindForbidden(lower, v.items[i]);
      path := [Index(i)] + rest;
      assert path[1..] == rest;
    }
  }

  lemma {:induction false} ForbiddenIsContained(lower: string -> string, v: Payload, path: seq<Step>)
    requires ForbiddenAt(lower, v, path)
    ensures ContainsForbidden(lower, v)
    decreases |path|
  {
    if path != [] {
      if path[0].Key? {
        ForbiddenIsContained(lower, v.entries[path[0].k], path[1..]);
      } else {
        ForbiddenIsContained(lower, v.items[path[0].i], path[1..]);
      }
    }
  }

  /** The check finds exactly the payloads that hold a forbidden key at some depth. */
  lemma ForbiddenAtAnyDepth(lower: string -> string, v: Payload)
    ensures ContainsForbidden(lower, v) <==> exists path :: ForbiddenAt(lower, v, path)
  {
    if ContainsForbidden(lower, v) {
      var path := FindForbidden(lower, v);
    }
    if path :| ForbiddenAt(lower, v, path) {
      ForbiddenIsContained(lower, v, path);
    }
  }
}

/** The CRM side of event delivery: process_breero_event() over the event ledger and
    the records it routes to, and ordinary users' writes to cases. Each call is one
    transaction, so a call that raises leaves the store as it was. */
module CrmSync {
  import opened CrmPayload
  import opened Options

  const ALLOWED_EVENTS: set<string> :=
    {"breero.service_request.created", "breero.service_request.updated",
     "breero.contact_request.created", "breero.provider_interest.created",
     "breero.booking.created", "breero.booking.status_changed",
     "breero.quote.created", "breero.quote.status_changed",
     "breero.lead_dispute.created", "breero.lead_dispute.resolved",
     "breero.customer.updated", "breero.provider.updated"}

  /** NotAnEnvelope stands for a value that is no dictionary or lacks a required key. */
  datatype Envelope =
    | NotAnEnvelope
    | Envelope(eventId: string, eventType: string, schemaVersion: int, aggregateId: string, aggregateVersion: int,
               occurredAt: string, idempotencyKey: string, source: string, payload: Payload)

  /** What the module gets from its surroundings: the SHA-256 digest of the serialized payload, str.lower,
      the trimmed lower-case email of a payload, the known currencies, and whether the ORM accepts the
      field values taken from an envelope. */
  datatype Config = Config(digest: Payload -> string, lower: string -> string, email: Payload -> string,
                           currencies: set<string>, storable: Envelope -> bool)

  // ---------------------------------------------------------------- stored records

  datatype Model = CaseModel | LeadModel

  datatype Row = Row(eventId: string, eventType: string, aggregateId: string, aggregateVersion: int,
                     idempotencyKey: string, digest: string, processed: bool, model: Model, recordId: nat)

  datatype CaseType = Support | LeadDispute

  /** The dispute fields that only BREERO may set and that routing fills in. */
  datatype Mirrors = Mirrors(leadId: Payload, disputeId: Payload, providerId: Payload, reason: Payload,
                             submittedAt: Payload, deadlineAt: Payload, status: Payload, amount: real,
                             currency: Option<string>, authority: Payload)

  const NO_MIRRORS := Mirrors(Nil, Nil, Nil, Nil, Nil, Nil, Nil, 0.0, None, Nil)

  datatype Case = Case(caseType: CaseType, external: Payload, eventId: string, name: Payload, team: string,
                       partner: nat, category: Payload, message: Payload, sourceUrl: Payload,
                       mirrors: Mirrors, resolution: Payload, stage: string)

  /** `details` is the routed payload, from which the remaining lead fields are copied. */
  datatype Lead = Lead(request: Payload, eventId: string, recordType: string, team: string, partner: nat,
                       details: Payload)

  datatype Partner = Partner(email: string, customerId: Payload, providerId: Payload)

  datatype Store = Store(ledger: seq<Row>, cases: map<nat, Case>, leads: map<nat, Lead>,
                         partners: map<nat, Partner>, nextId: nat)

  const EMPTY := Store([], map[], map[], map[], 0)

  // ---------------------------------------------------------------- routing

  predicate IsContact(e: Envelope)
    requires e.Envelope?
  {
    "breero.contact_request" <= e.eventType
  }

  predicate IsDispute(e: Envelope)
    requires e.Envelope?
  {
    "breero.lead_dispute" <= e.eventType
  }

  predicate IsProviderInterest(e: Envelope)
    requires e.Envelope?
  {
    "breero.provider_interest" <= e.eventType
  }

  /** wrapper.get("payload", wrapper) */
  function Inner(wrapper: Payload): Payload
    requires wrapper.Dict?
  {
    if "payload" in wrapper.entries then wrapper.entries["payload"] else wrapper
  }

  /** (amount_minor or 0) / 100; None where Python raises a TypeError. */
  function Amount(p: Payload): Option<real> {
    match p
    case Number(n) => Some(n / 100.0)
    case Bool(true) => Some(1.0 / 100.0)
    case _ => if Truthy(p) then None else Some(0.0)
  }

  /** Nothing but the presence of occurred_at is ever looked at. */
  function Untimed(e: Envelope): Envelope {
    if e.Envelope? then e.(occurredAt := "") else e
  }

  /** Whether routing `e` works: a matter of the envelope alone. */
  predicate Routable(config: Config, e: Envelope) {
    && e.Envelope? && e.payload.Dict? && Inner(e.payload).Dict?
    && config.storable(Untimed(e))
    && (IsDispute(e) ==> Amount(Get(Inner(e.payload), "amount_minor")).Some?)
  }

  /** The external reference an event is about. */
  function External(e: Envelope): Payload
    requires e.Envelope? && e.payload.Dict? && Inner(e.payload).Dict?
  {
    Or(Get(e.payload, "submission_id"), Or(Get(Inner(e.payload), "dispute_id"), Str(e.aggregateId)))
  }

  function Currency(config: Config, payload: Payload): Option<string>
    requires payload.Dict?
  {
    var name := if "currency" in payload.entries then payload.entries["currency"] else Str("USD");
    if name.Str? && name.s in config.currencies then Some(name.s) else None
  }

  function MirrorsOf(config: Config, e: Envelope): Mirrors
    requires Routable(config, e) && IsDispute(e)
  {
    var p := Inner(e.payload);
    Mirrors(Get(p, "lead_id"), Get(p, "dispute_id"), Get(p, "provider_id"), Get(p, "reason"),
            Get(p, "submitted_at"), Get(p, "deadline_at"), Get(p, "status"),
            Amount(Get(p, "amount_minor")).value, Currency(config, p), Get(p, "purchase_id"))
  }

  /** search(..., limit=1): the first matching id from `from` up to `end`. */
  function FirstId(ids: set<nat>, from: nat, end: nat): (r: Option<nat>)
    requires from <= end
    ensures r.Some? ==> from <= r.value < end && r.value in ids
    ensures r.None? ==> forall id | id in ids :: !(from <= id < end)
    decreases end - from
  {
    if from == end then None else if from in ids then Some(from) else FirstId(ids, from + 1, end)
  }

  predicate IsCase(c: Case, caseType: CaseType, external: Payload) {
    c.caseType == caseType && c.external == external
  }

  function CasesAbout(s: Store, caseType: CaseType, external: Payload): set<nat> {
    set id | id in s.cases && IsCase(s.cases[id], caseType, external)
  }

  function LeadsAbout(s: Store, external: Payload): set<nat> {
    set id | id in s.leads && s.leads[id].request == external
  }

  function FindCase(s: Store, caseType: CaseType, external: Payload): Option<nat> {
    FirstId(CasesAbout(s, caseType, external), 0, s.nextId)
  }

  function FindLead(s: Store, external: Payload): Option<nat> {
    FirstId(LeadsAbout(s, external), 0, s.nextId)
  }

  function PartnerKey(partner: Partner, provider: bool): Payload {
    if provider then partner.providerId else partner.customerId
  }

  /** The partners that carry a given, nonempty external id. */
  function PartnersNamed(partners: map<nat, Partner>, external: Payload, provider: bool): set<nat> {
    set id | id in partners && Truthy(external) && PartnerKey(partners[id], provider) == external
  }

  /** The external id a payload names. */
  function ExternalId(payload: Payload): Payload
    requires payload.Dict?
  {
    Or(Get(payload, "provider_id"), Get(payload, "customer_id"))
  }

  /** The partners with a given, nonempty email. */
  function PartnersAt(partners: map<nat, Partner>, email: string): set<nat> {
    set id | id in partners && email != "" && partners[id].email == email
  }

  /** _partner(): by external id, else by an email that only one partner has, else a new one. */
  function ResolvePartner(config: Config, s: Store, payload: Payload, provider: bool): (Store, nat)
    requires payload.Dict?
  {
    var external, email := ExternalId(payload), config.email(payload);
    var known := FirstId(PartnersNamed(s.partners, external, provider), 0, s.nextId);
    var sameEmail := PartnersAt(s.partners, email);
    var byEmail := FirstId(sameEmail, 0, s.nextId);
    if known.Some? then (s, known.value)
    else if |sameEmail| == 1 && byEmail.Some? then (s, byEmail.value)
    else
      var partner := Partner(email, if provider then Nil else external, if provider then external else Nil);
      (s.(partners := s.partners[s.nextId := partner], nextId := s.nextId + 1), s.nextId)
  }

  function SupportTeam(category: Payload): string {
    if category == Str("business") then "team_business"
    else if category == Str("provider_question") then "team_provider_recruitment"
    else "team_contact_support"
  }

  /** A case with the values routing writes for a contact request. */
  function WriteSupport(base: Case, e: Envelope, partner: nat): Case
    requires e.Envelope? && e.payload.Dict? && Inner(e.payload).Dict?
  {
    var p := Inner(e.payload);
    base.(caseType := Support, external := External(e), eventId := e.eventId,
          name := Or(Get(p, "subject"), Str("BREERO Contact")),
          team := SupportTeam(Get(p, "category")), partner := partner, category := Get(p, "category"),
          message := Get(p, "message"), sourceUrl := Get(p, "source_url"))
  }

  /** A case with the values routing writes for a lead dispute. */
  function WriteDispute(config: Config, base: Case, e: Envelope, partner: nat): Case
    requires Routable(config, e) && IsDispute(e)
  {
    base.(caseType := LeadDispute, external := External(e), eventId := e.eventId, name := External(e),
          team := "team_lead_disputes", partner := partner, mirrors := MirrorsOf(config, e))
  }

  const NEW_CASE := Case(Support, Nil, "", Nil, "", 0, Nil, Nil, Nil, NO_MIRRORS, Nil, "new")

  function WriteLead(e: Envelope, partner: nat): Lead
    requires e.Envelope? && e.payload.Dict? && Inner(e.payload).Dict?
  {
    var provider := IsProviderInterest(e);
    Lead(External(e), e.eventId, if provider then "provider_interest" else "service_request",
         if provider then "team_provider_recruitment" else "team_customer_requests", partner, Inner(e.payload))
  }

  /** UNIQUE(case_type, external_reference) would reject `c` stored under `id`. */
  predicate CaseClashes(cases: map<nat, Case>, id: nat, c: Case) {
    exists other | other in cases :: other != id && cases[other].caseType == c.caseType &&
      cases[other].external == c.external
  }

  /** UNIQUE(x_breero_request_id) would reject `lead` stored under `id`. */
  predicate LeadClashes(leads: map<nat, Lead>, id: nat, lead: Lead) {
    exists other | other in leads :: other != id && leads[other].request == lead.request
  }

  /** Stores `c` under `id`, creating the record if `id` is new; None is a constraint violation. */
  function PutCase(s: Store, id: nat, c: Case): Option<Store> {
    if CaseClashes(s.cases, id, c) then None
    else Some(s.(cases := s.cases[id := c], nextId := if id < s.nextId then s.nextId else id + 1))
  }

  function PutLead(s: Store, id: nat, lead: Lead): Option<Store> {
    if LeadClashes(s.leads, id, lead) then None
    else Some(s.(leads := s.leads[id := lead], nextId := if id < s.nextId then s.nextId else id + 1))
  }

  datatype Routed = Unroutable | Routed(store: Store, model: Model, id: nat)

  function Done(s: Option<Store>, model: Model, id: nat): Routed {
    if s.None? then Unroutable else Routed(s.value, model, id)
  }

  /** _route(): search, then create or write. */
  function Route(config: Config, s: Store, e: Envelope): Routed {
    if !Routable(config, e) then Unroutable
    else if IsContact(e) then
      var found := FindCase(s, Support, External(e));
      var (s', partner) := ResolvePartner(config, s, Inner(e.payload), false);
      var id := if found.Some? then found.value else s'.nextId;
      var base := if id in s'.cases then s'.cases[id] else NEW_CASE;
      Done(PutCase(s', id, WriteSupport(base, e, partner)), CaseModel, id)
    else if IsDispute(e) then
      var found := FindCase(s, LeadDispute, External(e));
      var (s', partner) := ResolvePartner(config, s, Inner(e.payload), true);
      var id := if found.Some? then found.value else s'.nextId;
      var base := if id in s'.cases then s'.cases[id] else NEW_CASE;
      Done(PutCase(s', id, WriteDispute(config, base, e, partner)), CaseModel, id)
    else
      var found := FindLead(s, External(e));
      var (s', partner) := ResolvePartner(config, s, Inner(e.payload), IsProviderInterest(e));
      var id := if found.Some? then found.value else s'.nextId;
      Done(PutLead(s', id, WriteLead(e, partner)), LeadModel, id)
  }

  // ---------------------------------------------------------------- one delivery

  datatype Outcome =
    | Ack(eventId: string, processed: bool, model: Model, recordId: nat)
    | AccessError
    | InvalidEnvelope
    | UnsupportedSource
    | UnsupportedType
    | ForbiddenField
    | PayloadConflict
    | ConstraintViolated
    | RoutingFailed

  function AckOf(row: Row): Outcome {
    Ack(row.eventId, row.processed, row.model, row.recordId)
  }

  /** The checks that do not look at the store; None means they pass. */
  function Screen(config: Config, integration: bool, e: Envelope): Option<Outcome> {
    if !integration then Some(AccessError)
    else if e.NotAnEnvelope? then Some(InvalidEnvelope)
    else if e.source != "breero" || e.schemaVersion != 1 then Some(UnsupportedSource)
    else if e.eventType !in ALLOWED_EVENTS then Some(UnsupportedType)
    else if ContainsForbidden(config.lower, e.payload) then Some(ForbiddenField)
    else None
  }

  predicate Matches(row: Row, e: Envelope)
    requires e.Envelope?
  {
    row.eventId == e.eventId || row.idempotencyKey == e.idempotencyKey
  }

  /** search(event_id or idempotency_key, limit 1), most recently received first. */
  function Existing(ledger: seq<Row>, e: Envelope): (r: Option<Row>)
    requires e.Envelope?
    ensures r.Some? ==> r.value in ledger && Matches(r.value, e)
    ensures r.None? ==> forall row | row in ledger :: !Matches(row, e)
  {
    if ledger == [] then None
    else if Matches(ledger[|ledger| - 1], e) then Some(ledger[|ledger| - 1])
    else
      assert ledger == ledger[..|ledger| - 1] + [ledger[|ledger| - 1]];
      Existing(ledger[..|ledger| - 1], e)
  }

  predicate SameVersion(row: Row, e: Envelope)
    requires e.Envelope?
  {
    row.eventType == e.eventType && row.aggregateId == e.aggregateId && row.aggregateVersion == e.aggregateVersion
  }

  /** One of the three UNIQUE constraints of the ledger rejects a row for `e`. */
  predicate RowClashes(ledger: seq<Row>, e: Envelope)
    requires e.Envelope?
  {
    exists i | 0 <= i < |ledger| :: Matches(ledger[i], e) || SameVersion(ledger[i], e)
  }

  function RowFor(config: Config, e: Envelope, model: Model, id: nat): Row
    requires e.Envelope?
  {
    Row(e.eventId, e.eventType, e.aggregateId, e.aggregateVersion, e.idempotencyKey, config.digest(e.payload), true,
        model, id)
  }

  function Deliver(config: Config, s: Store, integration: bool, e: Envelope): (Store, Outcome) {
    var screened := Screen(config, integration, e);
    if screened.Some? then (s, screened.value)
    else
      var existing := Existing(s.ledger, e);
      if existing.Some? then
        (s, if existing.value.digest != config.digest(e.payload) then PayloadConflict else AckOf(existing.value))
      else if RowClashes(s.ledger, e) then (s, ConstraintViolated)
      else
        match Route(config, s, e)
        case Unroutable => (s, RoutingFailed)
        case Routed(routed, model, id) =>
          var row := RowFor(config, e, model, id);
          (routed.(ledger := routed.ledger + [row]), AckOf(row))
  }

  /** The delivery creates a ledger row. */
  predicate Accepts(config: Config, s: Store, integration: bool, e: Envelope) {
    && Screen(config, integration, e).None?
    && Existing(s.ledger, e).None? && !RowClashes(s.ledger, e)
    && Route(config, s, e).Routed?
  }

  // ---------------------------------------------------------------- what every store satisfies

  ghost predicate RowsDistinct(ledger: seq<Row>) {
    forall i, j | 0 <= i < j < |ledger| ::
      && ledger[i].eventId != ledger[j].eventId
      && ledger[i].idempotencyKey != ledger[j].idempotencyKey
      && (ledger[i].eventType, ledger[i].aggregateId, ledger[i].aggregateVersion) !=
         (ledger[j].eventType, ledger[j].aggregateId, ledger[j].aggregateVersion)
  }

  /** The row was processed and its record exists. */
  ghost predicate Points(row: Row, cases: map<nat, Case>, leads: map<nat, Lead>) {
    row.processed && match row.model case CaseModel => row.recordId in cases case LeadModel => row.recordId in leads
  }

  ghost predicate CasesDistinct(cases: map<nat, Case>) {
    forall i, j | i in cases && j in cases && i != j ::
      (cases[i].caseType, cases[i].external) != (cases[j].caseType, cases[j].external)
  }

  ghost predicate LeadsDistinct(leads: map<nat, Lead>) {
    forall i, j | i in leads && j in leads && i != j :: leads[i].request != leads[j].request
  }

  ghost predicate IdsBelow(s: Store) {
    && (forall id | id in s.cases :: id < s.nextId)
    && (forall id | id in s.leads :: id < s.nextId)
    && (forall id | id in s.partners :: id < s.nextId)
  }

  ghost predicate Good(s: Store) {
    && RowsDistinct(s.ledger)
    && (forall i | 0 <= i < |s.ledger| :: Points(s.ledger[i], s.cases, s.leads))
    && CasesDistinct(s.cases) && LeadsDistinct(s.leads) && IdsBelow(s)
  }

  lemma PartnerOnly(config: Config, s: Store, payload: Payload, provider: bool)
    requires payload.Dict? && IdsBelow(s)
    ensures var (s', partner) := ResolvePartner(config, s, payload, provider);
            && s'.cases == s.cases && s'.leads == s.leads && s'.ledger == s.ledger
            && s'.nextId >= s.nextId && IdsBelow(s') && partner in s'.partners
  {
  }

  /** Storing a case found by its type and reference, or new under a fresh id, violates nothing. */
  lemma PutCaseWorks(s: Store, id: nat, c: Case)
    requires CasesDistinct(s.cases) && IdsBelow(s)
    requires if id in s.cases then IsCase(s.cases[id], c.caseType, c.external)
             else forall other | other in s.cases :: !IsCase(s.cases[other], c.caseType, c.external)
    ensures PutCase(s, id, c).Some?
    ensures var s' := PutCase(s, id, c).value;
            && CasesDistinct(s'.cases) && IdsBelow(s') && id in s'.cases
            && s'.leads == s.leads && s'.ledger == s.ledger && s'.partners == s.partners && s'.cases == s.cases[id := c]
  {
  }

  lemma PutLeadWorks(s: Store, id: nat, lead: Lead)
    requires LeadsDistinct(s.leads) && IdsBelow(s)
    requires if id in s.leads then s.leads[id].request == lead.request
             else forall other | other in s.leads :: s.leads[other].request != lead.request
    ensures PutLead(s, id, lead).Some?
    ensures var s' := PutLead(s, id, lead).value;
            && LeadsDistinct(s'.leads) && IdsBelow(s') && id in s'.leads
            && s'.cases == s.cases && s'.ledger == s.ledger && s'.partners == s.partners &&
               s'.leads == s.leads[id := lead]
  {
  }

  lemma FindCaseWorks(s: Store, caseType: CaseType, external: Payload)
    requires IdsBelow(s)
    ensures match FindCase(s, caseType, external)
            case Some(id) => id in s.cases && IsCase(s.cases[id], caseType, external)
            case None => forall id | id in s.cases :: !IsCase(s.cases[id], caseType, external)
  {
    if FindCase(s, caseType, external).None? {
      forall id | id in s.cases
        ensures !IsCase(s.cases[id], caseType, external)
      {
        assert id in CasesAbout(s, caseType, external) ==> !(0 <= id < s.nextId);
      }
    }
  }

  lemma FindLeadWorks(s: Store, external: Payload)
    requires IdsBelow(s)
    ensures match FindLead(s, external)
            case Some(id) => id in s.leads && s.leads[id].request == external
            case None => forall id | id in s.leads :: s.leads[id].request != external
  {
    if FindLead(s, external).None? {
      forall id | id in s.leads
        ensures s.leads[id].request != external
      {
        assert id in LeadsAbout(s, external) ==> !(0 <= id < s.nextId);
      }
    }
  }

  /** What routing does to the store: it changes or adds the one record it returns. */
  ghost predicate RoutedWell(config: Config, s: Store, e: Envelope, r: Routed)
    requires Routable(config, e)
  {
    && r.Routed?
    && r.store.ledger == s.ledger
    && CasesDistinct(r.store.cases) && LeadsDistinct(r.store.leads) && IdsBelow(r.store)
    && s.cases.Keys <= r.store.cases.Keys && s.leads.Keys <= r.store.leads.Keys
    && (forall id | id in s.cases && !(r.model == CaseModel && id == r.id) :: r.store.cases[id] == s.cases[id])
    && (forall id | id in s.leads && !(r.model == LeadModel && id == r.id) :: r.store.leads[id] == s.leads[id])
    && (if r.model == CaseModel
        then
          && r.id in r.store.cases && r.store.cases[r.id].external == External(e) && r.store.leads == s.leads
          && r.store.cases.Keys <= s.cases.Keys + {r.id}
          && r.store.cases[r.id].mirrors ==
             (if IsDispute(e) then MirrorsOf(config, e) else if r.id in s.cases then s.cases[r.id].mirrors
              else NO_MIRRORS)
        else r.id in r.store.leads && r.store.leads[r.id].request == External(e) && r.store.cases == s.cases)
    && (r.model == CaseModel <==> IsContact(e) || IsDispute(e))
  }

  /** Routing fails exactly on envelopes that are unroutable in themselves; no uniqueness constraint ever trips. */
  lemma RouteWorks(config: Config, s: Store, e: Envelope)
    requires Good(s)
    ensures Route(config, s, e).Routed? <==> Routable(config, e)
    ensures Routable(config, e) ==> RoutedWell(config, s, e, Route(config, s, e))
  {
    if Routable(config, e) {
      if IsContact(e) {
        RouteContact(config, s, e);
      } else if IsDispute(e) {
        RouteDispute(config, s, e);
      } else {
        RouteLead(config, s, e);
      }
    }
  }

  /** Storing the routed case is all that routing does to cases and leads. */
  lemma CaseRouted(config: Config, s: Store, s': Store, e: Envelope, id: nat, c: Case)
    requires Good(s) && Routable(config, e) && (IsContact(e) || IsDispute(e))
    requires s'.cases == s.cases && s'.leads == s.leads && s'.ledger == s.ledger && IdsBelow(s')
    requires if id in s.cases then IsCase(s.cases[id], c.caseType, c.external)
             else forall other | other in s.cases :: !IsCase(s.cases[other], c.caseType, c.external)
    requires c.external == External(e)
    requires c.mirrors == if IsDispute(e) then MirrorsOf(config, e) else if id in s.cases then s.cases[id].mirrors
             else NO_MIRRORS
    ensures RoutedWell(config, s, e, Done(PutCase(s', id, c), CaseModel, id))
  {
    hide MirrorsOf, External, Routable, PutCase;
    PutCaseWorks(s', id, c);
  }

  lemma LeadRouted(config: Config, s: Store, s': Store, e: Envelope, id: nat, lead: Lead)
    requires Good(s) && Routable(config, e) && !IsContact(e) && !IsDispute(e)
    requires s'.cases == s.cases && s'.leads == s.leads && s'.ledger == s.ledger && IdsBelow(s')
    requires if id in s.leads then s.leads[id].request == lead.request
             else forall other | other in s.leads :: s.leads[other].request != lead.request
    requires lead.request == External(e)
    ensures RoutedWell(config, s, e, Done(PutLead(s', id, lead), LeadModel, id))
  {
    hide MirrorsOf, External, Routable, PutLead;
    PutLeadWorks(s', id, lead);
  }

  lemma RouteContact(config: Config, s: Store, e: Envelope)
    requires Good(s) && Routable(config, e) && IsContact(e)
    ensures RoutedWell(config, s, e, Route(config, s, e))
  {
    PrefixesDiffer(e);
    var found := FindCase(s, Support, External(e));
    var (s', partner) := ResolvePartner(config, s, Inner(e.payload), false);
    var id := if found.Some? then found.value else s'.nextId;
    var base := if id in s'.cases then s'.cases[id] else NEW_CASE;
    var c := WriteSupport(base, e, partner);
    assert Route(config, s, e) == Done(PutCase(s', id, c), CaseModel, id);
    hide Route, RoutedWell, ResolvePartner, FindCase, External, PutCase, MirrorsOf, Routable;
    PartnerOnly(config, s, Inner(e.payload), false);
    FindCaseWorks(s, Support, External(e));
    CaseRouted(config, s, s', e, id, c);
  }

  lemma RouteDispute(config: Config, s: Store, e: Envelope)
    requires Good(s) && Routable(config, e) && !IsContact(e) && IsDispute(e)
    ensures RoutedWell(config, s, e, Route(config, s, e))
  {
    var found := FindCase(s, LeadDispute, External(e));
    var (s', partner) := ResolvePartner(config, s, Inner(e.payload), true);
    var id := if found.Some? then found.value else s'.nextId;
    var base := if id in s'.cases then s'.cases[id] else NEW_CASE;
    var c := WriteDispute(config, base, e, partner);
    assert Route(config, s, e) == Done(PutCase(s', id, c), CaseModel, id);
    hide Route, RoutedWell, ResolvePartner, FindCase, External, PutCase, MirrorsOf, Routable;
    PartnerOnly(config, s, Inner(e.payload), true);
    FindCaseWorks(s, LeadDispute, External(e));
    CaseRouted(config, s, s', e, id, c);
  }

  lemma RouteLead(config: Config, s: Store, e: Envelope)
    requires Good(s) && Routable(config, e) && !IsContact(e) && !IsDispute(e)
    ensures RoutedWell(config, s, e, Route(config, s, e))
  {
    var found := FindLead(s, External(e));
    var (s', partner) := ResolvePartner(config, s, Inner(e.payload), IsProviderInterest(e));
    var id := if found.Some? then found.value else s'.nextId;
    var lead := WriteLead(e, partner);
    assert Route(config, s, e) == Done(PutLead(s', id, lead), LeadModel, id);
    hide Route, RoutedWell, ResolvePartner, FindLead, External, PutLead, MirrorsOf, Routable;
    PartnerOnly(config, s, Inner(e.payload), IsProviderInterest(e));
    FindLeadWorks(s, External(e));
    LeadRouted(config, s, s', e, id, lead);
  }

  /** No event type is both a contact request and a dispute. */
  lemma PrefixesDiffer(e: Envelope)
    requires e.Envelope? && IsContact(e)
    ensures !IsDispute(e)
  {
    assert "breero.contact_request"[7] == 'c' && "breero.lead_dispute"[7] == 'l';
    assert e.eventType[7] == 'c';
  }

  // ---------------------------------------------------------------- runs of deliveries and user writes

  /** What a user sends to write(): None leaves a field alone. */
  datatype Changes = Changes(caseType: Option<CaseType>, external: Option<Payload>, stage: Option<string>,
                             message: Option<Payload>, mirrors: Option<Mirrors>, resolution: Option<Payload>)

  /** The write touches a field that only the integration group may write. */
  predicate TouchesMirrors(changes: Changes) {
    changes.mirrors.Some? || changes.resolution.Some?
  }

  function Pick<T>(change: Option<T>, current: T): T {
    if change.Some? then change.value else current
  }

  function Changed(c: Case, changes: Changes): Case {
    c.(caseType := Pick(changes.caseType, c.caseType), external := Pick(changes.external, c.external),
       stage := Pick(changes.stage, c.stage), message := Pick(changes.message, c.message),
       mirrors := Pick(changes.mirrors, c.mirrors), resolution := Pick(changes.resolution, c.resolution))
  }

  /** BreeroCrmCase.write(): the guard, then the update under the uniqueness constraint. */
  function WriteCase(s: Store, integration: bool, id: nat, changes: Changes): Store {
    if id !in s.cases || (TouchesMirrors(changes) && !integration) then s
    else
      var put := PutCase(s, id, Changed(s.cases[id], changes));
      if put.Some? then put.value else s
  }

  function CreateCase(s: Store, c: Case): Store {
    var put := PutCase(s, s.nextId, c);
    if put.Some? then put.value else s
  }

  datatype Action =
    | Delivery(integration: bool, envelope: Envelope)
    | UserWrite(id: nat, changes: Changes)     // by a user outside the integration group
    | UserCreate(newCase: Case)

  function Next(config: Config, s: Store, a: Action): Store {
    match a
    case Delivery(integration, e) => Deliver(config, s, integration, e).0
    case UserWrite(id, changes) => WriteCase(s, false, id, changes)
    case UserCreate(c) => CreateCase(s, c)
  }

  function After(config: Config, run: seq<Action>): Store {
    if run == [] then EMPTY else Next(config, After(config, run[..|run| - 1]), run[|run| - 1])
  }

  lemma AfterSnoc(config: Config, run: seq<Action>, a: Action)
    ensures After(config, run + [a]) == Next(config, After(config, run), a)
  {
    assert (run + [a])[..|run|] == run;
  }

  /** A delivery changes the store exactly when it is accepted, and then adds its one row. */
  lemma DeliverEffect(config: Config, s: Store, integration: bool, e: Envelope)
    requires Good(s)
    ensures !Accepts(config, s, integration, e) ==> Deliver(config, s, integration, e).0 == s
    ensures Accepts(config, s, integration, e) ==>
              var r, (s', outcome) := Route(config, s, e), Deliver(config, s, integration, e);
              && Routable(config, e) && RoutedWell(config, s, e, r)
              && s' == r.store.(ledger := s.ledger + [RowFor(config, e, r.model, r.id)])
              && outcome == AckOf(RowFor(config, e, r.model, r.id))
  {
    RouteWorks(config, s, e);
    hide Route, RoutedWell, Routable, Screen;
  }

  lemma RowsGrow(ledger: seq<Row>, e: Envelope, row: Row)
    requires RowsDistinct(ledger) && e.Envelope? && !RowClashes(ledger, e)
    requires row.eventId == e.eventId && row.idempotencyKey == e.idempotencyKey
    requires row.eventType == e.eventType && row.aggregateId == e.aggregateId &&
             row.aggregateVersion == e.aggregateVersion
    ensures RowsDistinct(ledger + [row])
  {
    assert forall i | 0 <= i < |ledger| :: !Matches(ledger[i], e) && !SameVersion(ledger[i], e);
  }

  lemma RoutedKeepsGood(config: Config, s: Store, e: Envelope, r: Routed, row: Row)
    requires Good(s) && Routable(config, e) && RoutedWell(config, s, e, r)
    requires RowsDistinct(s.ledger + [row]) && row.processed && row.model == r.model && row.recordId == r.id
    ensures Good(r.store.(ledger := s.ledger + [row]))
  {
    hide MirrorsOf, External, Routable, RowsDistinct;
    var s' := r.store.(ledger := s.ledger + [row]);
    forall i | 0 <= i < |s'.ledger|
      ensures Points(s'.ledger[i], s'.cases, s'.leads)
    {
      assert i < |s.ledger| ==> s'.ledger[i] == s.ledger[i];
    }
  }

  lemma DeliverKeepsGood(config: Config, s: Store, integration: bool, e: Envelope)
    requires Good(s)
    ensures Good(Deliver(config, s, integration, e).0)
  {
    DeliverEffect(config, s, integration, e);
    hide Deliver, Route, RoutedWell, Routable;
    if Accepts(config, s, integration, e) {
      var r := Route(config, s, e);
      var row := RowFor(config, e, r.model, r.id);
      RowsGrow(s.ledger, e, row);
      hide Good, RowsDistinct, RowClashes, Screen;
      RoutedKeepsGood(config, s, e, r, row);
    }
  }

  lemma UserKeepsGood(s: Store, id: nat, c: Case)
    requires Good(s) && (id in s.cases || id == s.nextId) && PutCase(s, id, c).Some?
    ensures Good(PutCase(s, id, c).value)
  {
    var s' := PutCase(s, id, c).value;
    assert forall other | other in s.cases && other != id :: !IsCase(s.cases[other], c.caseType, c.external);
  }

  lemma NextKeepsGood(config: Config, s: Store, a: Action)
    requires Good(s)
    ensures Good(Next(config, s, a))
  {
    match a
    case Delivery(integration, e) => DeliverKeepsGood(config, s, integration, e);
    case UserWrite(id, changes) =>
      if id in s.cases && !TouchesMirrors(changes) && PutCase(s, id, Changed(s.cases[id], changes)).Some? {
        UserKeepsGood(s, id, Changed(s.cases[id], changes));
      }
    case UserCreate(c) =>
      if PutCase(s, s.nextId, c).Some? {
        UserKeepsGood(s, s.nextId, c);
      }
  }

  /** In every run the ledger and the records keep their shape: event ids, idempotency keys and
      versions are unique, every row is processed and points to an existing record, and there is
      one case per type and reference and one lead per reference. */
  lemma {:induction false} EveryStoreIsGood(config: Config, run: seq<Action>)
    ensures Good(After(config, run))
  {
    hide Good, Next;
    if run == [] {
      EmptyIsGood();
    } else {
      EveryStoreIsGood(config, run[..|run| - 1]);
      NextKeepsGood(config, After(config, run[..|run| - 1]), run[|run| - 1]);
    }
  }

  lemma EmptyIsGood()
    ensures Good(EMPTY)
  {
  }

  // ---------------------------------------------------------------- who a payload resolves to

  /** Whether routing `e` looks for a provider. */
  predicate AsProvider(e: Envelope)
    requires e.Envelope?
  {
    !IsContact(e) && (IsDispute(e) || IsProviderInterest(e))
  }

  /** What routing does to partners is what looking up the partner of its payload does. */
  lemma RoutePartners(config: Config, s: Store, e: Envelope)
    requires Routable(config, e) && Route(config, s, e).Routed?
    ensures var (looked, _) := ResolvePartner(config, s, Inner(e.payload), AsProvider(e));
            Route(config, s, e).store.partners == looked.partners && Route(config, s, e).store.nextId >= looked.nextId
  {
    if IsContact(e) {
      PrefixesDiffer(e);
    }
    hide ResolvePartner, WriteSupport, WriteDispute, WriteLead, FindCase, FindLead, Routable, IsContact, IsDispute,
         IsProviderInterest, External, Inner, CaseClashes, LeadClashes;
  }

  /** Partners are added under new ids and never rewritten. */
  ghost predicate Extends(s: Store, s': Store) {
    && s.nextId <= s'.nextId
    && forall id: nat | id < s.nextId ::
         (id in s'.partners <==> id in s.partners) && (id in s.partners ==> s'.partners[id] == s.partners[id])
  }

  lemma LookupExtends(config: Config, s: Store, payload: Payload, provider: bool)
    requires payload.Dict?
    ensures Extends(s, ResolvePartner(config, s, payload, provider).0)
  {
  }

  lemma DeliveryExtends(config: Config, s: Store, integration: bool, e: Envelope)
    requires Good(s)
    ensures Extends(s, Deliver(config, s, integration, e).0)
  {
    DeliverEffect(config, s, integration, e);
    hide Good, Route, RoutedWell, Deliver, ResolvePartner, Routable;
    if Accepts(config, s, integration, e) {
      hide Accepts;
      RoutePartners(config, s, e);
      RoutableIsLookedUp(config, e);
      LookupExtends(config, s, Inner(e.payload), AsProvider(e));
    }
  }

  lemma RoutableIsLookedUp(config: Config, e: Envelope)
    requires Routable(config, e)
    ensures e.Envelope? && e.payload.Dict? && Inner(e.payload).Dict?
  {
  }

  lemma NextExtends(config: Config, s: Store, a: Action)
    requires Good(s)
    ensures Extends(s, Next(config, s, a))
  {
    hide Deliver, Good;
    if a.Delivery? {
      DeliveryExtends(config, s, a.integration, a.envelope);
    }
  }

  lemma {:induction false} RunExtends(config: Config, run: seq<Action>, more: seq<Action>)
    ensures Extends(After(config, run), After(config, run + more))
  {
    if more == [] {
      assert run + more == run;
    } else {
      var before, a := run + more[..|more| - 1], more[|more| - 1];
      RunExtends(config, run, more[..|more| - 1]);
      EveryStoreIsGood(config, before);
      NextExtends(config, After(config, before), a);
      AfterSnoc(config, before, a);
      assert run + more == before + [a];
    }
  }

  lemma {:induction false} FirstIdStays(ids: set<nat>, more: set<nat>, from: nat, end: nat, later: nat)
    requires from <= end <= later && FirstId(ids, from, end).Some?
    requires forall id: nat | from <= id < end :: id in ids <==> id in more
    ensures FirstId(more, from, later) == FirstId(ids, from, end)
    decreases end - from
  {
    if from !in ids {
      FirstIdStays(ids, more, from + 1, end, later);
    }
  }

  /** Once a partner carries the external id that a payload names, the payload resolves to one and the
      same partner after everything that follows. */
  lemma PartnerIsKept(config: Config, run: seq<Action>, more: seq<Action>, payload: Payload, provider: bool)
    requires payload.Dict? && PartnersNamed(After(config, run).partners, ExternalId(payload), provider) != {}
    ensures ResolvePartner(config, After(config, run + more), payload, provider) ==
            (After(config, run + more), ResolvePartner(config, After(config, run), payload, provider).1)
  {
    var s, s', external := After(config, run), After(config, run + more), ExternalId(payload);
    EveryStoreIsGood(config, run);
    RunExtends(config, run, more);
    hide After;
    var id :| id in PartnersNamed(s.partners, external, provider);
    assert id < s.nextId;
    FirstIdStays(PartnersNamed(s.partners, external, provider), PartnersNamed(s'.partners, external, provider),
                 0, s.nextId, s'.nextId);
  }

  /** A lookup whose external id nobody carries and whose email does not single out a partner creates one,
      which every payload naming that id finds. */
  lemma NewPartnerIsFound(config: Config, s: Store, s': Store, payload: Payload, other: Payload, provider: bool)
    requires IdsBelow(s) && payload.Dict? && other.Dict? && Truthy(ExternalId(payload))
    requires PartnersNamed(s.partners, ExternalId(payload), provider) == {} && ExternalId(other) == ExternalId(payload)
    requires |PartnersAt(s.partners, config.email(other))| != 1
    requires var looked := ResolvePartner(config, s, other, provider).0;
             s'.partners == looked.partners && s'.nextId >= looked.nextId
    ensures ResolvePartner(config, s', payload, provider).1 == s.nextId
  {
    var external := ExternalId(payload);
    hide ExternalId, Truthy;
    assert forall id | id in s.partners && s'.partners[id] == s.partners[id] ::
           id !in PartnersNamed(s.partners, external, provider);
    assert PartnersNamed(s'.partners, external, provider) == {s.nextId};
    assert FirstId({s.nextId}, 0, s'.nextId).Some?;
  }

  /** An event that would be accepted now, names the external id of `payload` in the same role, and has an email
      that does not single out a partner. */
  ghost predicate Usurps(config: Config, s: Store, payload: Payload, provider: bool, e: Envelope)
    requires payload.Dict?
  {
    && Routable(config, e) && Accepts(config, s, true, e)
    && ExternalId(Inner(e.payload)) == ExternalId(payload) && AsProvider(e) == provider
    && |PartnersAt(s.partners, config.email(Inner(e.payload)))| != 1
  }

  /** When no partner carries the external id, such an event creates one, and that one is found from then on. */
  lemma NewcomerTakesTheId(config: Config, s: Store, payload: Payload, provider: bool, e: Envelope)
    requires Good(s) && payload.Dict? && Truthy(ExternalId(payload)) && Usurps(config, s, payload, provider, e)
    requires PartnersNamed(s.partners, ExternalId(payload), provider) == {}
    ensures ResolvePartner(config, Next(config, s, Delivery(true, e)), payload, provider).1 == s.nextId
  {
    DeliverEffect(config, s, true, e);
    RoutableIsLookedUp(config, e);
    hide Route, RoutedWell, Deliver, Accepts, Routable, ResolvePartner, PartnersNamed, PartnersAt, ExternalId, Truthy,
         RowsDistinct, Points, CasesDistinct, LeadsDistinct;
    RoutePartners(config, s, e);
    NewPartnerIsFound(config, s, Next(config, s, Delivery(true, e)), payload, Inner(e.payload), provider);
  }

  lemma FoundIsOld(config: Config, s: Store, payload: Payload, provider: bool)
    requires Good(s) && payload.Dict? && ResolvePartner(config, s, payload, provider).0 == s
    ensures ResolvePartner(config, s, payload, provider).1 < s.nextId
  {
  }

  // ---------------------------------------------------------------- partners found by email

  /** No two partners share an email. */
  ghost predicate EmailsDistinct(partners: map<nat, Partner>) {
    forall i, j | i in partners && j in partners && i != j && partners[i].email != "" ::
      partners[i].email != partners[j].email
  }

  lemma LookupKeepsEmails(config: Config, s: Store, payload: Payload, provider: bool)
    requires IdsBelow(s) && payload.Dict? && EmailsDistinct(s.partners)
    ensures EmailsDistinct(ResolvePartner(config, s, payload, provider).0.partners)
  {
    var email := config.email(payload);
    var sameEmail := PartnersAt(s.partners, email);
    if id :| id in sameEmail {
      assert sameEmail == {id};
      assert FirstId(sameEmail, 0, s.nextId).Some?;
    } else {
      assert forall id | id in s.partners && email != "" && s.partners[id].email == email :: id in sameEmail;
    }
  }

  lemma NextKeepsEmails(config: Config, s: Store, a: Action)
    requires Good(s) && EmailsDistinct(s.partners)
    ensures EmailsDistinct(Next(config, s, a).partners)
  {
    hide EmailsDistinct;
    if a.Delivery? {
      DeliverEffect(config, s, a.integration, a.envelope);
      hide Route, RoutedWell, Deliver, ResolvePartner, Routable, RowsDistinct, Points, CasesDistinct, LeadsDistinct;
      if Accepts(config, s, a.integration, a.envelope) {
        hide Accepts;
        RoutePartners(config, s, a.envelope);
        RoutableIsLookedUp(config, a.envelope);
        LookupKeepsEmails(config, s, Inner(a.envelope.payload), AsProvider(a.envelope));
      }
    }
  }

  /** In every run nonempty emails single out their partners. */
  lemma {:induction false} EmailsStayDistinct(config: Config, run: seq<Action>)
    ensures EmailsDistinct(After(config, run).partners)
  {
    if run != [] {
      EmailsStayDistinct(config, run[..|run| - 1]);
      EveryStoreIsGood(config, run[..|run| - 1]);
      NextKeepsEmails(config, After(config, run[..|run| - 1]), run[|run| - 1]);
    }
  }

  /** Whom an email singles out, it singles out ever after. */
  lemma EmailIsKept(s: Store, s': Store, email: string, id: nat)
    requires IdsBelow(s) && Extends(s, s') && EmailsDistinct(s'.partners) && PartnersAt(s.partners, email) == {id}
    ensures PartnersAt(s'.partners, email) == {id}
  {
    assert id in PartnersAt(s.partners, email);
    assert s'.partners[id] == s.partners[id];
  }

  /** A partner is found by email exactly when nobody carries the id and the email singles the partner out. */
  lemma FoundByEmail(config: Config, s: Store, payload: Payload, provider: bool, id: nat)
    requires Good(s) && payload.Dict? && PartnersNamed(s.partners, ExternalId(payload), provider) == {}
    ensures ResolvePartner(config, s, payload, provider) == (s, id) <==>
            PartnersAt(s.partners, config.email(payload)) == {id}
  {
    var sameEmail := PartnersAt(s.partners, config.email(payload));
    if |sameEmail| == 1 {
      var one :| one in sameEmail;
      Singleton(sameEmail, one);
      assert one < s.nextId;
      assert FirstId(sameEmail, 0, s.nextId) == Some(one);
    }
  }

  lemma Singleton(ids: set<nat>, id: nat)
    requires |ids| == 1 && id in ids
    ensures ids == {id}
  {
    assert |ids - {id}| == 0;
    assert ids == {id} + (ids - {id});
  }

  // ---------------------------------------------------------------- an id that nobody can take

  ghost predicate Untaken(config: Config, s: Store, payload: Payload, provider: bool)
    requires payload.Dict?
  {
    && PartnersNamed(s.partners, ExternalId(payload), provider) == {}
    && forall e :: !Usurps(config, s, payload, provider, e)
  }

  /** A lookup that leaves somebody with the external id of `payload` is one for that id, in that role, with an email
      that singles out nobody. */
  lemma WhoTakesTheId(config: Config, s: Store, other: Payload, role: bool, payload: Payload, provider: bool)
    requires IdsBelow(s) && other.Dict? && payload.Dict? && Truthy(ExternalId(payload))
    requires PartnersNamed(s.partners, ExternalId(payload), provider) == {}
    requires PartnersNamed(ResolvePartner(config, s, other, role).0.partners, ExternalId(payload), provider) != {}
    ensures ExternalId(other) == ExternalId(payload) && role == provider
    ensures |PartnersAt(s.partners, config.email(other))| != 1
  {
    var s' := ResolvePartner(config, s, other, role).0;
    var external := ExternalId(payload);
    hide ExternalId;
    var id :| id in PartnersNamed(s'.partners, external, provider);
    assert id !in PartnersNamed(s.partners, external, provider);
    assert id == s.nextId;
  }

  lemma NextLeavesUntaken(config: Config, s: Store, a: Action, payload: Payload, provider: bool)
    requires Good(s) && EmailsDistinct(s.partners) && payload.Dict? && Truthy(ExternalId(payload))
    requires Untaken(config, s, payload, provider)
    ensures Untaken(config, Next(config, s, a), payload, provider)
  {
    var s' := Next(config, s, a);
    StillUnnamed(config, s, a, payload, provider);
    NextExtends(config, s, a);
    NextKeepsEmails(config, s, a);
    NextKeepsGood(config, s, a);
    LedgerGrows(config, s, a);
    hide Next, Good, ExternalId, Truthy, Routable, Accepts, PartnersNamed, EmailsDistinct, PartnersAt, Extends;
    forall e
      ensures !Usurps(config, s', payload, provider, e)
    {
      if Usurps(config, s', payload, provider, e) {
        assert !Usurps(config, s, payload, provider, e);
        if !Accepts(config, s, true, e) {
          RefusalIsFinal(config, s, s', true, e);
        } else {
          StillSingledOut(s, s', config.email(Inner(e.payload)));
        }
        assert false;
      }
    }
  }

  lemma StillSingledOut(s: Store, s': Store, email: string)
    requires Good(s) && Extends(s, s') && EmailsDistinct(s'.partners) && |PartnersAt(s.partners, email)| == 1
    ensures |PartnersAt(s'.partners, email)| == 1
  {
    var id :| id in PartnersAt(s.partners, email);
    Singleton(PartnersAt(s.partners, email), id);
    EmailIsKept(s, s', email, id);
  }

  lemma StillUnnamed(config: Config, s: Store, a: Action, payload: Payload, provider: bool)
    requires Good(s) && payload.Dict? && Truthy(ExternalId(payload)) && Untaken(config, s, payload, provider)
    ensures PartnersNamed(Next(config, s, a).partners, ExternalId(payload), provider) == {}
  {
    hide PartnersNamed, PartnersAt, ExternalId, Truthy;
    if a.Delivery? {
      var e := a.envelope;
      DeliverEffect(config, s, a.integration, e);
      assert Accepts(config, s, a.integration, e) ==> a.integration;
      hide Route, RoutedWell, Deliver, ResolvePartner, Routable, RowsDistinct, Points, CasesDistinct, LeadsDistinct,
           Accepts;
      if Accepts(config, s, a.integration, e) {
        RoutePartners(config, s, e);
        RoutableIsLookedUp(config, e);
        if PartnersNamed(Next(config, s, a).partners, ExternalId(payload), provider) != {} {
          assert !Usurps(config, s, payload, provider, e);
          WhoTakesTheId(config, s, Inner(e.payload), AsProvider(e), payload, provider);
          assert false;
        }
      }
    }
  }

  lemma {:induction false} StaysUntaken(config: Config, run: seq<Action>, more: seq<Action>, payload: Payload,
                                        provider: bool)
    requires payload.Dict? && Truthy(ExternalId(payload)) && Untaken(config, After(config, run), payload, provider)
    ensures Untaken(config, After(config, run + more), payload, provider)
  {
    hide Untaken, Truthy, ExternalId;
    if more == [] {
      assert run + more == run;
    } else {
      var before, a := run + more[..|more| - 1], more[|more| - 1];
      StaysUntaken(config, run, more[..|more| - 1], payload, provider);
      EveryStoreIsGood(config, before);
      EmailsStayDistinct(config, before);
      NextLeavesUntaken(config, After(config, before), a, payload, provider);
      AfterSnoc(config, before, a);
      assert run + more == before + [a];
    }
  }

  /** A payload that nobody's external id decides, now or later, keeps finding the partner its email singles out. */
  lemma EmailPartnerIsKept(config: Config, run: seq<Action>, more: seq<Action>, payload: Payload, provider: bool,
                           id: nat)
    requires payload.Dict? && ResolvePartner(config, After(config, run), payload, provider) == (After(config, run), id)
    requires !Truthy(ExternalId(payload)) || Untaken(config, After(config, run), payload, provider)
    ensures ResolvePartner(config, After(config, run + more), payload, provider) == (After(config, run + more), id)
  {
    var s, s' := After(config, run), After(config, run + more);
    if Truthy(ExternalId(payload)) {
      StaysUntaken(config, run, more, payload, provider);
    }
    assert PartnersNamed(s.partners, ExternalId(payload), provider) == {};
    assert PartnersNamed(s'.partners, ExternalId(payload), provider) == {};
    EveryStoreIsGood(config, run);
    EveryStoreIsGood(config, run + more);
    RunExtends(config, run, more);
    EmailsStayDistinct(config, run + more);
    hide After, ResolvePartner, PartnersNamed, PartnersAt, Extends, EmailsDistinct, RowsDistinct, Points, ExternalId,
         Truthy;
    FoundByEmail(config, s, payload, provider, id);
    EmailIsKept(s, s', config.email(payload), id);
    FoundByEmail(config, s', payload, provider, id);
  }

  /** The payload resolves to `partner` now and after everything that may follow. */
  ghost predicate AlwaysResolvesTo(config: Config, run: seq<Action>, payload: Payload, provider: bool, partner: nat)
    requires payload.Dict?
  {
    forall more :: ResolvePartner(config, After(config, run + more), payload, provider).1 == partner
  }

  lemma LostToUsurper(config: Config, run: seq<Action>, payload: Payload, provider: bool, partner: nat, e: Envelope)
    requires payload.Dict? && Truthy(ExternalId(payload)) && Usurps(config, After(config, run), payload, provider, e)
    requires PartnersNamed(After(config, run).partners, ExternalId(payload), provider) == {}
    requires ResolvePartner(config, After(config, run), payload, provider) == (After(config, run), partner)
    ensures ResolvePartner(config, After(config, run + [Delivery(true, e)]), payload, provider).1 != partner
  {
    hide ResolvePartner, Next, Usurps, Good, PartnersNamed, Truthy, ExternalId;
    EveryStoreIsGood(config, run);
    NewcomerTakesTheId(config, After(config, run), payload, provider, e);
    AfterSnoc(config, run, Delivery(true, e));
    FoundIsOld(config, After(config, run), payload, provider);
  }

  /** A payload that finds a partner keeps finding it, whatever follows, exactly when it names no external id, or some
      partner carries that id, or no event that could be accepted would take it. Otherwise the partner was found by
      email, which does not record the id, and the payload loses it to that event. */
  lemma FoundPartnerIsKeptExactly(config: Config, run: seq<Action>, payload: Payload, provider: bool, partner: nat)
    requires payload.Dict?
    requires ResolvePartner(config, After(config, run), payload, provider) == (After(config, run), partner)
    ensures AlwaysResolvesTo(config, run, payload, provider, partner) <==>
            || !Truthy(ExternalId(payload))
            || PartnersNamed(After(config, run).partners, ExternalId(payload), provider) != {}
            || forall e :: !Usurps(config, After(config, run), payload, provider, e)
  {
    hide ResolvePartner, After, Usurps, PartnersNamed, Truthy, ExternalId;
    var s, external := After(config, run), ExternalId(payload);
    if PartnersNamed(s.partners, external, provider) != {} {
      forall more
        ensures ResolvePartner(config, After(config, run + more), payload, provider).1 == partner
      {
        PartnerIsKept(config, run, more, payload, provider);
      }
    } else if e :| Truthy(external) && Usurps(config, s, payload, provider, e) {
      LostToUsurper(config, run, payload, provider, partner, e);
    } else {
      forall more
        ensures ResolvePartner(config, After(config, run + more), payload, provider).1 == partner
      {
        EmailPartnerIsKept(config, run, more, payload, provider, partner);
      }
    }
  }

  /** A contact request that uses one id throughout. */
  function ContactRequest(id: string, payload: Payload): Envelope {
    Envelope(id, "breero.contact_request.created", 1, id, 1, "", id, "breero", payload)
  }

  /** Delivering a contact request with a new id, as the integration user, is a lookup of its partner. */
  lemma ContactIsTaken(config: Config, s: Store, id: string, payload: Payload)
    requires Good(s) && payload.Dict? && Inner(payload) == payload && !ContainsForbidden(config.lower, payload)
    requires config.storable(ContactRequest(id, payload))
    requires !RowClashes(s.ledger, ContactRequest(id, payload))
    ensures var e := ContactRequest(id, payload);
            && Routable(config, e) && Accepts(config, s, true, e) && !AsProvider(e)
            && Next(config, s, Delivery(true, e)).partners == ResolvePartner(config, s, payload, false).0.partners
            && exists row :: Next(config, s, Delivery(true, e)).ledger == s.ledger + [row] &&
                             row.eventId == row.idempotencyKey == row.aggregateId == id
  {
    var e := ContactRequest(id, payload);
    assert e.eventType in ALLOWED_EVENTS && IsContact(e);
    PrefixesDiffer(e);
    assert Routable(config, e) && Screen(config, true, e).None?;
    AcceptsExactly(config, s, true, e);
    DeliverEffect(config, s, true, e);
    hide Route, RoutedWell, Deliver, Accepts, Routable, ResolvePartner, Good, RowClashes, Screen, ContainsForbidden;
    RoutePartners(config, s, e);
    var r := Route(config, s, e);
    assert Next(config, s, Delivery(true, e)).ledger == s.ledger + [RowFor(config, e, r.model, r.id)];
  }

  /** A payload that a contact request may carry. */
  ghost predicate Acceptable(config: Config, id: string, payload: Payload) {
    && payload.Dict? && Inner(payload) == payload && !ContainsForbidden(config.lower, payload)
    && config.storable(ContactRequest(id, payload))
  }

  lemma FirstPartner(config: Config, payload: Payload)
    requires payload.Dict? && ExternalId(payload) == Nil && config.email(payload) != ""
    ensures ResolvePartner(config, EMPTY, payload, false).0.partners ==
            map[0 := Partner(config.email(payload), Nil, Nil)]
  {
  }

  lemma OnePartner(partners: map<nat, Partner>, email: string, other: string, external: Payload)
    requires partners == map[0 := Partner(email, Nil, Nil)] && email != "" && other != email && Truthy(external)
    ensures PartnersNamed(partners, external, false) == {}
    ensures PartnersAt(partners, email) == {0} && PartnersAt(partners, other) == {}
  {
  }

  lemma NewRows(s: Store, s': Store, row: Row, e: Envelope)
    requires e.Envelope? && s'.ledger == s.ledger + [row] && !RowClashes(s.ledger, e)
    requires row.eventId != e.eventId && row.idempotencyKey != e.idempotencyKey && row.aggregateId != e.aggregateId
    ensures !RowClashes(s'.ledger, e)
  {
  }

  /** Three requests under the ids `i`, `j` and `k`, one after the other. */
  lemma ThreeLookups(config: Config, anonymous: Payload, first: Payload, second: Payload, i: string, j: string,
                     k: string,
                     s1: Store, s2: Store)
    requires i != j && j != k && i != k && Good(EMPTY) && Good(s1) && Good(s2)
    requires Acceptable(config, i, anonymous) && Acceptable(config, j, first) && Acceptable(config, k, second)
    requires ExternalId(anonymous) == Nil && ExternalId(first) == ExternalId(second) && Truthy(ExternalId(first))
    requires config.email(anonymous) == config.email(first) != "" && config.email(second) != config.email(first)
    requires s1 == Next(config, EMPTY, Delivery(true, ContactRequest(i, anonymous)))
    requires s2 == Next(config, s1, Delivery(true, ContactRequest(j, first)))
    ensures ResolvePartner(config, s1, first, false) == (s1, 0) && ResolvePartner(config, s2, first, false) == (s2, 0)
    ensures PartnersNamed(s2.partners, ExternalId(first), false) == {}
    ensures Usurps(config, s2, first, false, ContactRequest(k, second))
  {
    var b, c := ContactRequest(j, first), ContactRequest(k, second);
    FirstPartner(config, anonymous);
    OnePartner(map[0 := Partner(config.email(first), Nil, Nil)], config.email(first), config.email(second),
               ExternalId(first));
    assert forall e: Envelope | e.Envelope? :: !RowClashes(EMPTY.ledger, e);
    hide ResolvePartner, PartnersNamed, PartnersAt, ExternalId, Truthy, Accepts, Routable, ContainsForbidden,
         RowClashes,
         Next, Inner, Good, AsProvider;
    ContactIsTaken(config, EMPTY, i, anonymous);
    var one :| s1.ledger == EMPTY.ledger + [one] && one.eventId == one.idempotencyKey == one.aggregateId == i;
    NewRows(EMPTY, s1, one, b);
    NewRows(EMPTY, s1, one, c);
    FoundByEmail(config, s1, first, false, 0);
    ContactIsTaken(config, s1, j, first);
    var two :| s2.ledger == s1.ledger + [two] && two.eventId == two.idempotencyKey == two.aggregateId == j;
    NewRows(s1, s2, two, c);
    FoundByEmail(config, s2, first, false, 0);
    ContactIsTaken(config, s2, k, second);
  }

  /** What goes wrong, from the empty store: a request without an id creates partner 0 with some email; a request that
      names an id finds that partner by the same email; and one that names the same id with another email takes it
      away. */
  lemma EmailMatchIsForgotten(config: Config, anonymous: Payload, first: Payload, second: Payload,
                              i: string, j: string, k: string, run: seq<Action>)
    requires i != j && j != k && i != k
    requires Acceptable(config, i, anonymous) && Acceptable(config, j, first) && Acceptable(config, k, second)
    requires ExternalId(anonymous) == Nil && ExternalId(first) == ExternalId(second) && Truthy(ExternalId(first))
    requires config.email(anonymous) == config.email(first) != "" && config.email(second) != config.email(first)
    requires run == [Delivery(true, ContactRequest(i, anonymous)), Delivery(true, ContactRequest(j, first)),
                     Delivery(true, ContactRequest(k, second))]
    ensures ResolvePartner(config, After(config, run[..1]), first, false) == (After(config, run[..1]), 0)
    ensures ResolvePartner(config, After(config, run[..2]), first, false) == (After(config, run[..2]), 0)
    ensures ResolvePartner(config, After(config, run), first, false).1 != 0
  {
    EmptyIsGood();
    assert run[..0] == [] && After(config, []) == EMPTY;
    hide After, Next, Good, ResolvePartner, Usurps, PartnersNamed, Truthy, ExternalId, ContactRequest, Acceptable;
    assert run[..1] == run[..0] + [run[0]] && run[..2] == run[..1] + [run[1]] && run == run[..2] + [run[2]];
    EveryStoreIsGood(config, run[..1]);
    EveryStoreIsGood(config, run[..2]);
    AfterSnoc(config, run[..0], run[0]);
    AfterSnoc(config, run[..1], run[1]);
    ThreeLookups(config, anonymous, first, second, i, j, k, After(config, run[..1]), After(config, run[..2]));
    LostToUsurper(config, run[..2], first, false, 0, ContactRequest(k, second));
  }

  // ---------------------------------------------------------------- redelivery

  /** The same event, possibly in an envelope built at another time. */
  predicate SameEvent(e: Envelope, f: Envelope) {
    Untimed(e) == Untimed(f)
  }

  /** An event is accepted exactly when it passes the screen, is routable, and the ledger holds
      neither its event id, nor its idempotency key, nor its version. */
  lemma AcceptsExactly(config: Config, s: Store, integration: bool, e: Envelope)
    requires Good(s)
    ensures Accepts(config, s, integration, e) <==>
            Screen(config, integration, e).None? && Routable(config, e) && !RowClashes(s.ledger, e)
  {
    RouteWorks(config, s, e);
    hide Route, RoutedWell, Routable, Good, Existing;
    if Screen(config, integration, e).None? && Existing(s.ledger, e).Some? {
      var row := Existing(s.ledger, e).value;
      var i :| 0 <= i < |s.ledger| && s.ledger[i] == row;
    }
  }

  /** The time of an envelope never matters. */
  lemma AcceptsSame(config: Config, s: Store, integration: bool, e: Envelope, f: Envelope)
    requires Good(s) && SameEvent(e, f)
    ensures Accepts(config, s, integration, e) == Accepts(config, s, integration, f)
  {
    hide Accepts, Good, ContainsForbidden, Amount, Get;
    AcceptsExactly(config, s, integration, e);
    AcceptsExactly(config, s, integration, f);
    if e.Envelope? {
      assert Screen(config, integration, e) == Screen(config, integration, f);
      assert Routable(config, e) == Routable(config, f);
      hide Screen, Routable, Untimed;
      assert RowClashes(s.ledger, e) == RowClashes(s.ledger, f);
    }
  }

  lemma LedgerGrows(config: Config, s: Store, a: Action)
    requires Good(s)
    ensures s.ledger <= Next(config, s, a).ledger
  {
    if a.Delivery? {
      DeliverEffect(config, s, a.integration, a.envelope);
      hide Deliver, Route, Accepts;
    }
  }

  /** What is not accepted now is not accepted later. */
  lemma RefusalIsFinal(config: Config, s: Store, s': Store, integration: bool, e: Envelope)
    requires Good(s) && Good(s') && s.ledger <= s'.ledger
    requires !Accepts(config, s, integration, e)
    ensures !Accepts(config, s', integration, e)
  {
    AcceptsExactly(config, s, integration, e);
    AcceptsExactly(config, s', integration, e);
    hide Accepts, Good, Routable, Screen;
    assert forall i | 0 <= i < |s.ledger| :: s'.ledger[i] == s.ledger[i];
  }

  /** Once delivered, an event is not accepted again. */
  lemma DeliverySettles(config: Config, s: Store, integration: bool, e: Envelope)
    requires Good(s)
    ensures !Accepts(config, Deliver(config, s, integration, e).0, integration, e)
  {
    DeliverEffect(config, s, integration, e);
    hide Deliver, Route, RoutedWell, Routable, Screen;
    if Accepts(config, s, integration, e) {
      var s' := Deliver(config, s, integration, e).0;
      assert s'.ledger[|s.ledger|] in s'.ledger && Matches(s'.ledger[|s.ledger|], e);
    }
  }

  lemma {:induction false} OnceIsEnough(config: Config, run: seq<Action>, j: nat, n: nat, f: Envelope)
    requires j < n <= |run| && run[j].Delivery? && SameEvent(run[j].envelope, f)
    ensures !Accepts(config, After(config, run[..n]), run[j].integration, f)
    decreases n
  {
    hide Accepts, Deliver, Good, After, SameEvent;
    var s, s', a := After(config, run[..n - 1]), After(config, run[..n]), run[n - 1];
    AfterStep(config, run, n - 1);
    EveryStoreIsGood(config, run[..n - 1]);
    EveryStoreIsGood(config, run[..n]);
    if n == j + 1 {
      DeliverySettles(config, s, a.integration, a.envelope);
      AcceptsSame(config, s', a.integration, a.envelope, f);
    } else {
      OnceIsEnough(config, run, j, n - 1, f);
      LedgerGrows(config, s, a);
      RefusalIsFinal(config, s, s', run[j].integration, f);
    }
  }

  /** Step `i` delivers, as the same kind of caller, an event that an earlier step delivered. */
  ghost predicate Repeats(run: seq<Action>, i: nat)
    requires i < |run|
  {
    && run[i].Delivery?
    && exists j :: 0 <= j < i && run[j].Delivery? && run[j].integration == run[i].integration
                   && SameEvent(run[j].envelope, run[i].envelope)
  }

  /** The run without its repeated deliveries. */
  ghost function Deduplicated(run: seq<Action>): seq<Action> {
    if run == [] then []
    else if Repeats(run, |run| - 1) then Deduplicated(run[..|run| - 1])
    else Deduplicated(run[..|run| - 1]) + [run[|run| - 1]]
  }

  /** Redelivery is harmless: deleting every repeated delivery from a run, whatever users write in
      between, leaves the final ledger and records as they are. */
  lemma {:induction false} RedeliveryIsHarmless(config: Config, run: seq<Action>)
    ensures After(config, Deduplicated(run)) == After(config, run)
  {
    if run != [] {
      var before, a := run[..|run| - 1], run[|run| - 1];
      RedeliveryIsHarmless(config, before);
      assert run == before + [a];
      AfterSnoc(config, before, a);
      AfterSnoc(config, Deduplicated(before), a);
      hide Deliver, Accepts, SameEvent, After;
      if Repeats(run, |run| - 1) {
        var j :| 0 <= j < |run| - 1 && run[j].Delivery? && run[j].integration == a.integration &&
          SameEvent(run[j].envelope, a.envelope);
        OnceIsEnough(config, run, j, |run| - 1, a.envelope);
        EveryStoreIsGood(config, before);
        DeliverEffect(config, After(config, before), a.integration, a.envelope);
      }
    }
  }

  lemma {:induction false} LedgerOnlyGrows(config: Config, run: seq<Action>, m: nat, n: nat)
    requires m <= n <= |run|
    ensures After(config, run[..m]).ledger <= After(config, run[..n]).ledger
    decreases n
  {
    hide After, Next, Good;
    if m < n {
      LedgerOnlyGrows(config, run, m, n - 1);
      AfterStep(config, run, n - 1);
      EveryStoreIsGood(config, run[..n - 1]);
      LedgerGrows(config, After(config, run[..n - 1]), run[n - 1]);
    }
  }

  /** In a ledger without duplicates, the row of an event is the one its envelope finds. */
  lemma RowIsFound(ledger: seq<Row>, row: Row, e: Envelope)
    requires RowsDistinct(ledger) && row in ledger && e.Envelope?
    requires row.eventId == e.eventId && row.idempotencyKey == e.idempotencyKey
    ensures Existing(ledger, e) == Some(row)
  {
    var found := Existing(ledger, e);
    assert Matches(row, e);
    var i :| 0 <= i < |ledger| && ledger[i] == row;
    var j :| 0 <= j < |ledger| && ledger[j] == found.value;
  }

  /** An event whose row the ledger holds is answered from that row. */
  lemma AnsweredFromRow(config: Config, s: Store, integration: bool, e: Envelope, f: Envelope, model: Model, id: nat)
    requires Good(s) && SameEvent(e, f) && Screen(config, integration, e).None?
    requires RowFor(config, e, model, id) in s.ledger
    ensures Deliver(config, s, integration, f).1 == AckOf(RowFor(config, e, model, id))
  {
    RowIsFound(s.ledger, RowFor(config, e, model, id), f);
    hide Existing, Route, RowClashes;
  }

  lemma AcceptedRow(config: Config, s: Store, integration: bool, e: Envelope) returns (row: Row)
    requires Good(s) && Accepts(config, s, integration, e)
    ensures e.Envelope? && row == RowFor(config, e, row.model, row.recordId)
    ensures Deliver(config, s, integration, e).0.ledger == s.ledger + [row]
    ensures Deliver(config, s, integration, e).1 == AckOf(row)
  {
    DeliverEffect(config, s, integration, e);
    row := RowFor(config, e, Route(config, s, e).model, Route(config, s, e).id);
  }

  /** The row an accepted delivery creates stays in the ledger. */
  lemma RowIsKept(config: Config, run: seq<Action>, j: nat) returns (row: Row)
    requires j < |run| && run[j].Delivery?
    requires Accepts(config, After(config, run[..j]), run[j].integration, run[j].envelope)
    ensures row in After(config, run).ledger && run[j].envelope.Envelope?
    ensures row == RowFor(config, run[j].envelope, row.model, row.recordId)
    ensures Deliver(config, After(config, run[..j]), run[j].integration, run[j].envelope).1 == AckOf(row)
  {
    hide After, Accepts, Deliver;
    var s := After(config, run[..j]);
    EveryStoreIsGood(config, run[..j]);
    row := AcceptedRow(config, s, run[j].integration, run[j].envelope);
    AfterStep(config, run, j);
    LedgerOnlyGrows(config, run, j + 1, |run|);
    LastIsKept(After(config, run[..j + 1]).ledger, After(config, run[..|run|]).ledger, s.ledger, row);
    assert run[..|run|] == run;
  }

  lemma AfterStep(config: Config, run: seq<Action>, j: nat)
    requires j < |run|
    ensures After(config, run[..j + 1]) == Next(config, After(config, run[..j]), run[j])
  {
    hide After, Next;
    assert run[..j + 1] == run[..j] + [run[j]];
    AfterSnoc(config, run[..j], run[j]);
  }

  /** Redelivering an accepted event, at any later point of any run and even in an envelope built
      at a later time, returns the original acknowledgement. */
  lemma RedeliveryIsAcknowledged(config: Config, run: seq<Action>, j: nat, f: Envelope)
    requires j < |run| && run[j].Delivery? && SameEvent(run[j].envelope, f)
    requires Accepts(config, After(config, run[..j]), run[j].integration, run[j].envelope)
    ensures Deliver(config, After(config, run), run[j].integration, f).1 ==
            Deliver(config, After(config, run[..j]), run[j].integration, run[j].envelope).1
  {
    EveryStoreIsGood(config, run);
    assert Screen(config, run[j].integration, run[j].envelope).None?;
    hide After, Accepts, Deliver, Screen, SameEvent, Good;
    var row := RowIsKept(config, run, j);
    AnsweredFromRow(config, After(config, run), run[j].integration, run[j].envelope, f, row.model, row.recordId);
  }

  lemma LastIsKept(middle: seq<Row>, later: seq<Row>, first: seq<Row>, row: Row)
    requires middle == first + [row] && middle <= later
    ensures row in later
  {
    assert later[|first|] == row;
  }

  // ---------------------------------------------------------------- what was accepted

  /** Every ledger row stems from an accepted delivery whose payload holds no forbidden key at any depth. */
  lemma {:induction false} RowsComeFromCleanEvents(config: Config, run: seq<Action>, row: Row)
    requires row in After(config, run).ledger
    ensures exists i :: 0 <= i < |run| && CleanSource(config, run, i, row)
  {
    if run != [] {
      var before, a := run[..|run| - 1], run[|run| - 1];
      var s := After(config, before);
      EveryStoreIsGood(config, before);
      if row in s.ledger {
        RowsComeFromCleanEvents(config, before, row);
        var i :| 0 <= i < |before| && CleanSource(config, before, i, row);
        assert before[i] == run[i] && before[..i] == run[..i];
        assert CleanSource(config, run, i, row);
      } else {
        NewRowIsClean(config, s, a, row);
        assert CleanSource(config, run, |run| - 1, row);
      }
    }
  }

  ghost predicate CleanSource(config: Config, run: seq<Action>, i: nat, row: Row)
    requires i < |run|
  {
    && run[i].Delivery? && run[i].envelope.Envelope?
    && Accepts(config, After(config, run[..i]), run[i].integration, run[i].envelope)
    && row == RowFor(config, run[i].envelope, row.model, row.recordId)
    && forall path :: !ForbiddenAt(config.lower, run[i].envelope.payload, path)
  }

  lemma NewRowIsClean(config: Config, s: Store, a: Action, row: Row)
    requires Good(s) && row !in s.ledger && row in Next(config, s, a).ledger
    ensures a.Delivery? && a.envelope.Envelope? && Accepts(config, s, a.integration, a.envelope)
    ensures row == RowFor(config, a.envelope, row.model, row.recordId)
    ensures forall path :: !ForbiddenAt(config.lower, a.envelope.payload, path)
  {
    if a.Delivery? {
      DeliverEffect(config, s, a.integration, a.envelope);
      hide Deliver, Route, RoutedWell, Routable;
      assert Accepts(config, s, a.integration, a.envelope);
      ForbiddenAtAnyDepth(config.lower, a.envelope.payload);
    }
  }

  // ---------------------------------------------------------------- the dispute mirror

  /** The last accepted dispute event that the run routed to case `id`. */
  ghost function LastDispute(config: Config, run: seq<Action>, id: nat): Option<Envelope> {
    if run == [] then None
    else
      var s, a := After(config, run[..|run| - 1]), run[|run| - 1];
      if a.Delivery? && Accepts(config, s, a.integration, a.envelope) && IsDispute(a.envelope) &&
         Route(config, s, a.envelope).id == id
      then Some(a.envelope)
      else LastDispute(config, run[..|run| - 1], id)
  }

  /** A step changes the mirror fields of an existing case only by accepting a dispute event routed to it. */
  lemma MirrorsChangeByDisputeOnly(config: Config, s: Store, a: Action, id: nat)
    requires Good(s) && id in s.cases
    ensures id in Next(config, s, a).cases
    ensures !(a.Delivery? && Accepts(config, s, a.integration, a.envelope) && IsDispute(a.envelope) &&
              Route(config, s, a.envelope).id == id) ==>
              Next(config, s, a).cases[id].mirrors == s.cases[id].mirrors
  {
    if a.Delivery? {
      DeliverEffect(config, s, a.integration, a.envelope);
      hide Deliver, Route, MirrorsOf, External, Routable, Screen;
      if Accepts(config, s, a.integration, a.envelope) && IsDispute(a.envelope) && IsContact(a.envelope) {
        PrefixesDiffer(a.envelope);
      }
    }
  }

  /** In every interleaving of deliveries with ordinary users' guarded writes and their new cases, the
      mirror fields of a case equal those of the last accepted dispute event routed to it. */
  lemma {:induction false} MirrorsFollowTheLastDispute(config: Config, run: seq<Action>, id: nat)
    requires LastDispute(config, run, id).Some?
    ensures var e := LastDispute(config, run, id).value;
            && Routable(config, e) && IsDispute(e) && id in After(config, run).cases
            && After(config, run).cases[id].mirrors == MirrorsOf(config, e)
  {
    var before, a := run[..|run| - 1], run[|run| - 1];
    var s := After(config, before);
    EveryStoreIsGood(config, before);
    hide Deliver, Route, MirrorsOf, External, Routable, Screen, WriteCase, CreateCase, Good;
    if a.Delivery? && Accepts(config, s, a.integration, a.envelope) && IsDispute(a.envelope) &&
       Route(config, s, a.envelope).id == id {
      DeliverEffect(config, s, a.integration, a.envelope);
    } else {
      MirrorsFollowTheLastDispute(config, before, id);
      MirrorsChangeByDisputeOnly(config, s, a, id);
    }
  }

  // ---------------------------------------------------------------- the sender

  /** An outbox event; None is an absent attribute. */
  datatype Event = Event(id: string, eventType: string, schemaVersion: Option<int>, aggregateId: string,
                         aggregateVersion: Option<int>, createdAt: Option<string>, idempotencyKey: Option<string>,
                         payload: Option<Payload>)

  /** build_event_envelope() at time `now`. */
  function BuildEnvelope(ev: Event, now: string): Envelope {
    Envelope(ev.id, ev.eventType, Pick(ev.schemaVersion, 1), ev.aggregateId, Pick(ev.aggregateVersion, 1),
             if ev.createdAt.Some? && ev.createdAt.value != "" then ev.createdAt.value else now,
             if ev.idempotencyKey.Some? && ev.idempotencyKey.value != "" then ev.idempotencyKey.value else ev.id,
             "breero", Pick(ev.payload, Dict(map[])))
  }

  /** Sending an event again, in an envelope built at another time, returns the acknowledgement of the
      first time it was accepted. */
  lemma ResendIsAcknowledged(config: Config, run: seq<Action>, j: nat, ev: Event, first: string, later: string)
    requires j < |run| && run[j] == Delivery(true, BuildEnvelope(ev, first))
    requires Accepts(config, After(config, run[..j]), true, BuildEnvelope(ev, first))
    ensures Deliver(config, After(config, run), true, BuildEnvelope(ev, later)).1 ==
            Deliver(config, After(config, run[..j]), true, BuildEnvelope(ev, first)).1
  {
    assert SameEvent(BuildEnvelope(ev, first), BuildEnvelope(ev, later));
    hide Deliver, After, Accepts, SameEvent;
    RedeliveryIsAcknowledged(config, run, j, BuildEnvelope(ev, later));
  }

  // ---------------------------------------------------------------- the same, in place

  class CrmDatabase {
    const config: Config
    var ledger: seq<Row>
    var cases: map<nat, Case>
    var leads: map<nat, Lead>
    var partners: map<nat, Partner>
    var nextId: nat

    function State(): Store
      reads this
    {
      Store(ledger, cases, leads, partners, nextId)
    }

    constructor (config: Config)
      ensures State() == EMPTY && this.config == config
    {
      this.config := config;
      ledger, cases, leads, partners, nextId := [], map[], map[], map[], 0;
    }

    method Restore(s: Store)
      modifies this
      ensures State() == s
    {
      ledger, cases, leads, partners, nextId := s.ledger, s.cases, s.leads, s.partners, s.nextId;
    }

    method TakePartner(payload: Payload, provider: bool) returns (partner: nat)
      requires payload.Dict?
      modifies this`partners, this`nextId
      ensures (State(), partner) == ResolvePartner(config, old(State()), payload, provider)
    {
      var external := ExternalId(payload);
      var email := config.email(payload);
      var known := FirstId(PartnersNamed(partners, external, provider), 0, nextId);
      if known.Some? {
        return known.value;
      }
      var sameEmail := set id | id in partners && email != "" && partners[id].email == email;
      var byEmail := FirstId(sameEmail, 0, nextId);
      if |sameEmail| == 1 && byEmail.Some? {
        return byEmail.value;
      }
      partner := nextId;
      var created := Partner(email, if provider then Nil else external, if provider then external else Nil);
      partners := partners[partner := created];
      nextId := nextId + 1;
    }

    method SaveCase(id: nat, c: Case) returns (saved: bool)
      modifies this`cases, this`nextId
      ensures saved == PutCase(old(State()), id, c).Some?
      ensures State() == if saved then PutCase(old(State()), id, c).value else old(State())
    {
      saved := !CaseClashes(cases, id, c);
      if saved {
        cases := cases[id := c];
        if id >= nextId {
          nextId := id + 1;
        }
      }
    }

    method SaveLead(id: nat, lead: Lead) returns (saved: bool)
      modifies this`leads, this`nextId
      ensures saved == PutLead(old(State()), id, lead).Some?
      ensures State() == if saved then PutLead(old(State()), id, lead).value else old(State())
    {
      saved := !LeadClashes(leads, id, lead);
      if saved {
        leads := leads[id := lead];
        if id >= nextId {
          nextId := id + 1;
        }
      }
    }

    /** _route(); when it fails the caller rolls back. */
    method RouteEvent(e: Envelope) returns (routed: bool, model: Model, id: nat)
      modifies this`cases, this`leads, this`partners, this`nextId
      ensures Route(config, old(State()), e) == if routed then Routed(State(), model, id) else Unroutable
    {
      routed, model, id := false, CaseModel, 0;
      if !Routable(config, e) {
        return;
      }
      var payload, external := Inner(e.payload), External(e);
      if IsContact(e) {
        var found := FindCase(State(), Support, external);
        var partner := TakePartner(payload, false);
        id := if found.Some? then found.value else nextId;
        var base := if id in cases then cases[id] else NEW_CASE;
        routed := SaveCase(id, WriteSupport(base, e, partner));
      } else if IsDispute(e) {
        var found := FindCase(State(), LeadDispute, external);
        var partner := TakePartner(payload, true);
        id := if found.Some? then found.value else nextId;
        var base := if id in cases then cases[id] else NEW_CASE;
        routed := SaveCase(id, WriteDispute(config, base, e, partner));
      } else {
        model := LeadModel;
        var found := FindLead(State(), external);
        var partner := TakePartner(payload, IsProviderInterest(e));
        id := if found.Some? then found.value else nextId;
        routed := SaveLead(id, WriteLead(e, partner));
      }
    }

    method ProcessBreeroEvent(integration: bool, e: Envelope) returns (outcome: Outcome)
      modifies this
      ensures (State(), outcome) == Deliver(config, old(State()), integration, e)
    {
      if !integration {
        return AccessError;
      }
      if e.NotAnEnvelope? {
        return InvalidEnvelope;
      }
      if e.source != "breero" || e.schemaVersion != 1 {
        return UnsupportedSource;
      }
      if e.eventType !in ALLOWED_EVENTS {
        return UnsupportedType;
      }
      if ContainsForbidden(config.lower, e.payload) {
        return ForbiddenField;
      }
      var digest := config.digest(e.payload);
      var existing := Existing(ledger, e);
      if existing.Some? {
        return if existing.value.digest != digest then PayloadConflict else AckOf(existing.value);
      }
      if RowClashes(ledger, e) {
        return ConstraintViolated;
      }
      var savepoint := State();
      var routed, model, id := RouteEvent(e);
      if !routed {
        Restore(savepoint);
        return RoutingFailed;
      }
      var row := Row(e.eventId, e.eventType, e.aggregateId, e.aggregateVersion, e.idempotencyKey, digest, true, model,
                     id);
      ledger := ledger + [row];
      outcome := AckOf(row);
    }

    /** BreeroCrmCase.write() */
    method Write(integration: bool, id: nat, changes: Changes) returns (denied: bool)
      modifies this`cases, this`nextId
      ensures denied == ((changes.mirrors.Some? || changes.resolution.Some?) && !integration)
      ensures State() == WriteCase(old(State()), integration, id, changes)
    {
      denied := TouchesMirrors(changes) && !integration;
      if !denied && id in cases {
        var saved := SaveCase(id, Changed(cases[id], changes));
      }
    }
  }
}
