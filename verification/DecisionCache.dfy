/** The evaluator with its decision cache: concurrent calls as interleaved steps. */
module DecisionCache {
  import opened Ast
  import opened Analyzer
  import opened CacheKey
  import Schema

  datatype Decision = Decision(allowed: bool, reason: string)

  /** What the policy engine returns. */
  datatype Outcome = Answered(decision: Decision) | EngineError

  datatype Settings = Settings(schema: Option<Schema.SchemaInfo>, ttl: real, failClosed: bool, auditOnly: bool)

  const ALLOW := Decision(true, "")

  const UNAVAILABLE := "OPA unavailable \U{2014} request blocked for safety"

  function Fallback(g: Settings): Decision {
    if g.failClosed then Decision(false, UNAVAILABLE) else ALLOW
  }

  /** In audit-only mode a block is let through. */
  function Audited(g: Settings, d: Decision): Decision {
    if g.auditOnly && !d.allowed then ALLOW else d
  }

  function Message(verdict: Schema.Verdict): string {
    match verdict
    case Accepted => ""
    case NoSuchField(segment, typeName) => "field \"" + segment + "\" does not exist on type \"" + typeName + "\""
    case Unresolvable(segment) => "cannot resolve return type for field \"" + segment + "\""
    case TypeNotFound(typeName) => "type \"" + typeName + "\" not found in schema"
  }

  function SchemaVerdict(g: Settings, info: Summary): Schema.Verdict {
    match g.schema
    case None => Schema.Accepted
    case Some(schema) => Schema.Expected(schema, info.operationType, Schema.SplitAll(info.fieldPaths))
  }

  function Rejection(g: Settings, info: Summary): Decision {
    Decision(false, Message(SchemaVerdict(g, info)))
  }

  // ---------- The steps ----------

  datatype Source = SchemaCheck | CacheHit | EngineFailure | Evaluation

  /** Where a call stands. `version` is the version of the params store when the call first read it. */
  datatype Phase =
    | Checked(info: Summary)
    | HasParams(info: Summary, version: nat)
    | HasInput(info: Summary, version: nat)
    | Missed(info: Summary, version: nat)
    | ToStore(info: Summary, version: nat, decision: Decision)
    | Done(info: Summary, version: nat, decision: Decision, source: Source, at: real)

  datatype Entry = Entry(decision: Decision, expiry: real, version: nat)

  /** A write to the cache. */
  datatype Write = Write(key: string, decision: Decision, version: nat, id: nat, at: real)

  /** `answers` and `writes` record the past; `hits`, `errors` and `evaluated` are the outcome
      counters, with the calls that incremented them. */
  datatype State = State(
    now: real, version: nat, cache: map<string, Entry>, calls: map<nat, Phase>, answers: map<nat, Outcome>,
    writes: seq<Write>, hits: multiset<nat>, errors: multiset<nat>, evaluated: multiset<nat>)

  const INITIAL := State(0.0, 0, map[], map[], map[], [], multiset{}, multiset{}, multiset{})

  datatype Step =
    | Tick(to: real)
    | Update
    | Begin(id: nat, info: Summary)
    | ReadParams(id: nat)
    | ReadTenant(id: nat)
    | Look(id: nat)
    | Return(id: nat, outcome: Outcome)
    | Store(id: nat)

  predicate Enabled(s: State, step: Step) {
    match step
    case Tick(to) => s.now <= to
    case Update => true
    case Begin(id, _) => id !in s.calls
    case ReadParams(id) => id in s.calls && s.calls[id].Checked?
    case ReadTenant(id) => id in s.calls && s.calls[id].HasParams?
    case Look(id) => id in s.calls && s.calls[id].HasInput?
    case Return(id, _) => id in s.calls && s.calls[id].Missed?
    case Store(id) => id in s.calls && s.calls[id].ToStore?
  }

  predicate Fresh(g: Settings, s: State, key: string) {
    g.ttl > 0.0 && key in s.cache && s.now < s.cache[key].expiry
  }

  function Move(s: State, id: nat, phase: Phase): State {
    s.(calls := s.calls[id := phase])
  }

  function Apply(g: Settings, s: State, step: Step): State
    requires Enabled(s, step)
  {
    match step
    case Tick(to) => s.(now := to)
    case Update => s.(version := s.version + 1)
    case Begin(id, info) =>
      Move(s, id, if SchemaVerdict(g, info).Accepted? then Checked(info)
                  else Done(info, s.version, Rejection(g, info), SchemaCheck, s.now))
    case ReadParams(id) => Move(s, id, HasParams(s.calls[id].info, s.version))
    case ReadTenant(id) => Move(s, id, HasInput(s.calls[id].info, s.calls[id].version))
    case Look(id) =>
      var c := s.calls[id];
      if Fresh(g, s, Key(c.info)) then
        var e := s.cache[Key(c.info)];
        Move(s, id, Done(c.info, e.version, Audited(g, e.decision), CacheHit, s.now)).(hits := s.hits + multiset{id})
      else Move(s, id, Missed(c.info, c.version))
    case Return(id, outcome) =>
      var c := s.calls[id];
      var t := s.(answers := s.answers[id := outcome]);
      (match outcome
       case EngineError =>
         Move(t, id, Done(c.info, c.version, Fallback(g), EngineFailure, s.now)).(errors := s.errors + multiset{id})
       case Answered(d) =>
         Move(t, id, if g.ttl > 0.0 then ToStore(c.info, c.version, Audited(g, d))
                     else Done(c.info, c.version, Audited(g, d), Evaluation, s.now)
         ).(evaluated := s.evaluated + multiset{id}))
    case Store(id) =>
      var c := s.calls[id];
      Move(s, id, Done(c.info, c.version, c.decision, Evaluation, s.now)).(
        cache := s.cache[Key(c.info) := Entry(c.decision, s.now + g.ttl, c.version)],
        writes := s.writes + [Write(Key(c.info), c.decision, c.version, id, s.now)])
  }

  /** Every step of the run is enabled when it is taken. */
  ghost predicate Possible(g: Settings, steps: seq<Step>)
    decreases |steps|, 0
  {
    steps == [] ||
    (Possible(g, steps[..|steps| - 1]) && Enabled(Run(g, steps[..|steps| - 1]), steps[|steps| - 1]))
  }

  ghost function Run(g: Settings, steps: seq<Step>): State
    requires Possible(g, steps)
    decreases |steps|, 1
  {
    if steps == [] then INITIAL else Apply(g, Run(g, steps[..|steps| - 1]), steps[|steps| - 1])
  }

  lemma RunMore(g: Settings, steps: seq<Step>, step: Step)
    requires Possible(g, steps) && Enabled(Run(g, steps), step)
    ensures Possible(g, steps + [step]) && Run(g, steps + [step]) == Apply(g, Run(g, steps), step)
  {
  }

  // ---------- Provenance ----------

  /** A decision obtained from a successful evaluation. */
  ghost predicate Answer(g: Settings, s: State, id: nat, d: Decision) {
    id in s.answers && s.answers[id].Answered? && d == Audited(g, s.answers[id].decision)
  }

  ghost predicate AnswersKept(g: Settings, s: State) {
    forall id | id in s.calls ::
      && (s.calls[id].ToStore? ==> g.ttl > 0.0 && Answer(g, s, id, s.calls[id].decision))
      && (s.calls[id].Done? && s.calls[id].source.Evaluation? ==> Answer(g, s, id, s.calls[id].decision))
  }

  /** A write was made by a finished call that evaluated a query with the written key. */
  ghost predicate Justified(s: State, w: Write) {
    && w.at <= s.now
    && w.id in s.calls && s.calls[w.id].Done? && s.calls[w.id].source.Evaluation?
    && Key(s.calls[w.id].info) == w.key && s.calls[w.id].decision == w.decision && s.calls[w.id].version == w.version
  }

  ghost predicate WritesJustified(s: State) {
    forall i | 0 <= i < |s.writes| :: Justified(s, s.writes[i])
  }

  ghost predicate Backs(g: Settings, w: Write, key: string, e: Entry) {
    w.key == key && w.decision == e.decision && w.version == e.version && w.at + g.ttl == e.expiry
  }

  ghost predicate EntriesBacked(g: Settings, s: State) {
    forall key | key in s.cache :: exists i | 0 <= i < |s.writes| :: Backs(g, s.writes[i], key, s.cache[key])
  }

  lemma StepKeepsAnswers(g: Settings, s: State, step: Step)
    requires Enabled(s, step) && AnswersKept(g, s)
    ensures AnswersKept(g, Apply(g, s, step))
  {
    var t := Apply(g, s, step);
    forall id | id in t.calls
      ensures t.calls[id].ToStore? ==> g.ttl > 0.0 && Answer(g, t, id, t.calls[id].decision)
      ensures t.calls[id].Done? && t.calls[id].source.Evaluation? ==> Answer(g, t, id, t.calls[id].decision)
    {
      if id in s.calls && s.calls[id] == t.calls[id] {
        assert step.Return? && step.id == id ==> s.calls[id].Missed?;
      }
    }
  }

  lemma StepKeepsWrites(g: Settings, s: State, step: Step)
    requires Enabled(s, step) && WritesJustified(s)
    ensures WritesJustified(Apply(g, s, step))
  {
    var t := Apply(g, s, step);
    forall i | 0 <= i < |t.writes|
      ensures Justified(t, t.writes[i])
    {
      if i < |s.writes| {
        assert Justified(s, s.writes[i]);
        assert t.writes[i] == s.writes[i];
      }
    }
  }

  lemma StepKeepsEntries(g: Settings, s: State, step: Step)
    requires Enabled(s, step) && EntriesBacked(g, s)
    ensures EntriesBacked(g, Apply(g, s, step))
  {
    var t := Apply(g, s, step);
    forall key | key in t.cache
      ensures exists i | 0 <= i < |t.writes| :: Backs(g, t.writes[i], key, t.cache[key])
    {
      if key in s.cache && t.cache[key] == s.cache[key] {
        var i :| 0 <= i < |s.writes| && Backs(g, s.writes[i], key, s.cache[key]);
        assert Backs(g, t.writes[i], key, t.cache[key]);
      } else {
        assert Backs(g, t.writes[|s.writes|], key, t.cache[key]);
      }
    }
  }

  lemma {:induction false} RunProvenance(g: Settings, steps: seq<Step>)
    requires Possible(g, steps)
    ensures var s := Run(g, steps); AnswersKept(g, s) && WritesJustified(s) && EntriesBacked(g, s)
  {
    if steps != [] {
      var init, last := steps[..|steps| - 1], steps[|steps| - 1];
      RunProvenance(g, init);
      StepKeepsAnswers(g, Run(g, init), last);
      StepKeepsWrites(g, Run(g, init), last);
      StepKeepsEntries(g, Run(g, init), last);
    }
  }

  /** Every hit returns what a successful evaluation of a query with the same key wrote less than
      one TTL ago, whatever was interleaved. */
  lemma HitProvenance(g: Settings, steps: seq<Step>, id: nat) returns (w: Write)
    requires Possible(g, steps) && Enabled(Run(g, steps), Look(id))
    requires Fresh(g, Run(g, steps), Key(Run(g, steps).calls[id].info))
    ensures var s := Run(g, steps);
            && w in s.writes && w.key == Key(s.calls[id].info)
            && s.now - g.ttl < w.at <= s.now
            && Justified(s, w) && Answer(g, s, w.id, w.decision)
            && Apply(g, s, Look(id)).calls[id] ==
               Done(s.calls[id].info, w.version, Audited(g, w.decision), CacheHit, s.now)
  {
    RunProvenance(g, steps);
    var s := Run(g, steps);
    var key := Key(s.calls[id].info);
    var i :| 0 <= i < |s.writes| && Backs(g, s.writes[i], key, s.cache[key]);
    w := s.writes[i];
    assert Justified(s, w);
  }

  lemma StepKeepsExpiry(g: Settings, s: State, step: Step, key: string)
    requires Enabled(s, step) && key in s.cache && s.cache[key].expiry <= s.now + g.ttl
    ensures key in Apply(g, s, step).cache && s.cache[key].expiry <= Apply(g, s, step).cache[key].expiry
  {
  }

  lemma ExpiryWithinTtl(g: Settings, steps: seq<Step>, key: string)
    requires Possible(g, steps) && key in Run(g, steps).cache
    ensures Run(g, steps).cache[key].expiry <= Run(g, steps).now + g.ttl
  {
    RunProvenance(g, steps);
    var s := Run(g, steps);
    var i :| 0 <= i < |s.writes| && Backs(g, s.writes[i], key, s.cache[key]);
    assert Justified(s, s.writes[i]);
  }

  /** The expiry of a key never moves back, and no entry is ever dropped. */
  lemma ExpiryNeverDecreases(g: Settings, steps: seq<Step>, step: Step, key: string)
    requires Possible(g, steps) && Enabled(Run(g, steps), step) && key in Run(g, steps).cache
    ensures var s, t := Run(g, steps), Apply(g, Run(g, steps), step);
            key in t.cache && s.cache[key].expiry <= t.cache[key].expiry
  {
    ExpiryWithinTtl(g, steps, key);
    StepKeepsExpiry(g, Run(g, steps), step, key);
  }

  /** In audit-only mode everything in the cache is an allowance. */
  lemma AuditCachesAllowances(g: Settings, steps: seq<Step>, key: string)
    requires Possible(g, steps) && g.auditOnly && key in Run(g, steps).cache
    ensures Run(g, steps).cache[key].decision.allowed
  {
    RunProvenance(g, steps);
    var s := Run(g, steps);
    var i :| 0 <= i < |s.writes| && Backs(g, s.writes[i], key, s.cache[key]);
    assert Justified(s, s.writes[i]);
  }

  /** What a call gets for a decision: the decision itself, but in audit-only mode an allowance for a denial. */
  ghost predicate Delivers(g: Settings, decision: Decision, d: Decision) {
    if g.auditOnly && !decision.allowed then d.allowed && d.reason == "" else d == decision
  }

  /** In every run each call that was evaluated gets what the engine answered for it. */
  lemma EvaluationExact(g: Settings, steps: seq<Step>, id: nat)
    requires Possible(g, steps) && id in Run(g, steps).calls
    requires Run(g, steps).calls[id].Done? && Run(g, steps).calls[id].source == Evaluation
    ensures var s := Run(g, steps);
            && id in s.answers && s.answers[id].Answered?
            && Delivers(g, s.answers[id].decision, s.calls[id].decision)
  {
    RunProvenance(g, steps);
  }

  /** The last write to a key. */
  ghost predicate IsLastWrite(s: State, key: string, i: nat) {
    i < |s.writes| && s.writes[i].key == key && forall j | i < j < |s.writes| :: s.writes[j].key != key
  }

  /** The cache holds for each key what was written last. */
  ghost predicate HoldsLast(g: Settings, s: State) {
    && (forall key, i: nat | IsLastWrite(s, key, i) :: key in s.cache && Backs(g, s.writes[i], key, s.cache[key]))
    && (forall key | key in s.cache :: exists i: nat :: IsLastWrite(s, key, i))
  }

  /** Storing appends one write and makes it the last of its key. */
  lemma StoreKeepsLast(g: Settings, s: State, t: State, w: Write, e: Entry)
    requires HoldsLast(g, s) && t.writes == s.writes + [w] && t.cache == s.cache[w.key := e] && Backs(g, w, w.key, e)
    ensures HoldsLast(g, t)
  {
    var n := |s.writes|;
    assert t.writes[n] == w && forall i | 0 <= i < n :: t.writes[i] == s.writes[i];
    assert IsLastWrite(t, w.key, n);
    forall key, i: nat | IsLastWrite(t, key, i)
      ensures key in t.cache && Backs(g, t.writes[i], key, t.cache[key])
    {
      if key != w.key {
        assert IsLastWrite(s, key, i);
      }
    }
    forall key | key in t.cache
      ensures exists i: nat :: IsLastWrite(t, key, i)
    {
      if key != w.key {
        var i: nat :| IsLastWrite(s, key, i);
        assert IsLastWrite(t, key, i);
      }
    }
  }

  lemma StepKeepsLast(g: Settings, s: State, step: Step)
    requires Enabled(s, step) && HoldsLast(g, s)
    ensures HoldsLast(g, Apply(g, s, step))
  {
    var t := Apply(g, s, step);
    if step.Store? {
      var w := t.writes[|s.writes|];
      StoreKeepsLast(g, s, t, w, t.cache[w.key]);
    } else {
      assert t.writes == s.writes && t.cache == s.cache;
      assert forall key, i: nat :: IsLastWrite(t, key, i) <==> IsLastWrite(s, key, i);
    }
  }

  lemma {:induction false} RunHoldsLast(g: Settings, steps: seq<Step>)
    requires Possible(g, steps)
    ensures HoldsLast(g, Run(g, steps))
  {
    if steps != [] {
      RunHoldsLast(g, steps[..|steps| - 1]);
      StepKeepsLast(g, Run(g, steps[..|steps| - 1]), steps[|steps| - 1]);
    }
  }

  /** A lookup is a hit exactly when caching is on and the key was last written less than one TTL ago. It then
      returns that decision, and otherwise leaves the call to the engine. */
  lemma HitExactly(g: Settings, steps: seq<Step>, id: nat)
    requires Possible(g, steps) && Enabled(Run(g, steps), Look(id))
    ensures var s := Run(g, steps);
            var key, after := Key(s.calls[id].info), Apply(g, s, Look(id)).calls[id];
            && (after.Done? <==>
                g.ttl > 0.0 && exists i: nat :: IsLastWrite(s, key, i) && s.now < s.writes[i].at + g.ttl)
            && (after.Done? ==> after.source == CacheHit && forall i: nat | IsLastWrite(s, key, i) ::
                  Delivers(g, s.writes[i].decision, after.decision))
            && (!after.Done? ==> after.Missed?)
  {
    var s := Run(g, steps);
    var key := Key(s.calls[id].info);
    RunHoldsLast(g, steps);
    if key in s.cache {
      var i: nat :| IsLastWrite(s, key, i);
      assert Backs(g, s.writes[i], key, s.cache[key]);
    }
  }

  // ---------- When the engine fails ----------

  /** What a call gets when the engine fails: a denial for safety when the evaluator fails closed, and
      otherwise an allowance. */
  ghost predicate FailsAsSet(g: Settings, d: Decision) {
    && (d.allowed <==> !g.failClosed)
    && d.reason == if g.failClosed then "OPA unavailable \U{2014} request blocked for safety" else ""
  }

  /** A call that the schema check ended was denied, and one on which the engine failed has that answer. */
  ghost predicate EndsAsSet(g: Settings, phase: Phase) {
    phase.Done? ==>
      && (phase.source.SchemaCheck? ==> !phase.decision.allowed)
      && (phase.source.EngineFailure? ==> FailsAsSet(g, phase.decision))
  }

  ghost predicate AllEndAsSet(g: Settings, s: State) {
    forall id | id in s.calls :: EndsAsSet(g, s.calls[id])
  }

  lemma StepKeepsEnds(g: Settings, s: State, step: Step)
    requires Enabled(s, step) && AllEndAsSet(g, s)
    ensures AllEndAsSet(g, Apply(g, s, step))
  {
  }

  lemma {:induction false} RunEndsAsSet(g: Settings, steps: seq<Step>)
    requires Possible(g, steps)
    ensures AllEndAsSet(g, Run(g, steps))
  {
    if steps != [] {
      RunEndsAsSet(g, steps[..|steps| - 1]);
      StepKeepsEnds(g, Run(g, steps[..|steps| - 1]), steps[|steps| - 1]);
    }
  }

  /** In every run each call on which the engine failed gets that answer. */
  lemma EngineFailureExact(g: Settings, steps: seq<Step>, id: nat)
    requires Possible(g, steps) && id in Run(g, steps).calls
    requires Run(g, steps).calls[id].Done? && Run(g, steps).calls[id].source == EngineFailure
    ensures FailsAsSet(g, Run(g, steps).calls[id].decision)
  {
    RunEndsAsSet(g, steps);
    assert EndsAsSet(g, Run(g, steps).calls[id]);
  }

  /** The decision of a hit is one that was written, under the same key. */
  ghost predicate HitWritten(g: Settings, phase: Phase, writes: seq<Write>) {
    phase.Done? && phase.source.CacheHit? ==>
      exists i | 0 <= i < |writes| ::
        writes[i].key == Key(phase.info) && phase.decision == Audited(g, writes[i].decision)
  }

  ghost predicate HitsWritten(g: Settings, s: State) {
    forall id | id in s.calls :: HitWritten(g, s.calls[id], s.writes)
  }

  lemma HitWrittenLater(g: Settings, phase: Phase, writes: seq<Write>, more: seq<Write>)
    requires HitWritten(g, phase, writes) && writes <= more
    ensures HitWritten(g, phase, more)
  {
    if phase.Done? && phase.source.CacheHit? {
      var i :| 0 <= i < |writes| && writes[i].key == Key(phase.info)
               && phase.decision == Audited(g, writes[i].decision);
      assert more[i] == writes[i];
    }
  }

  lemma LookWritten(g: Settings, s: State, id: nat)
    requires Enabled(s, Look(id)) && EntriesBacked(g, s)
    ensures HitWritten(g, Apply(g, s, Look(id)).calls[id], s.writes)
  {
    var key := Key(s.calls[id].info);
    if Fresh(g, s, key) {
      var i :| 0 <= i < |s.writes| && Backs(g, s.writes[i], key, s.cache[key]);
    }
  }

  lemma StepKeepsHits(g: Settings, s: State, step: Step)
    requires Enabled(s, step) && HitsWritten(g, s) && EntriesBacked(g, s)
    ensures HitsWritten(g, Apply(g, s, step))
  {
    var t := Apply(g, s, step);
    assert s.writes <= t.writes;
    forall id | id in t.calls
      ensures HitWritten(g, t.calls[id], t.writes)
    {
      if step == Look(id) {
        LookWritten(g, s, id);
      } else if id in s.calls && s.calls[id] == t.calls[id] {
        HitWrittenLater(g, s.calls[id], s.writes, t.writes);
      } else {
        assert !(t.calls[id].Done? && t.calls[id].source.CacheHit?);
      }
    }
  }

  lemma {:induction false} RunHitsWritten(g: Settings, steps: seq<Step>)
    requires Possible(g, steps)
    ensures HitsWritten(g, Run(g, steps))
  {
    if steps != [] {
      RunHitsWritten(g, steps[..|steps| - 1]);
      RunProvenance(g, steps[..|steps| - 1]);
      StepKeepsHits(g, Run(g, steps[..|steps| - 1]), steps[|steps| - 1]);
    }
  }

  /** When the evaluator fails closed and enforces, everything let through in any run, however often the engine
      fails, was answered by the engine as allowed: for the call itself or for one with the same key. */
  lemma AllowedWasAnswered(g: Settings, steps: seq<Step>, id: nat) returns (asked: nat)
    requires Possible(g, steps) && g.failClosed && !g.auditOnly
    requires id in Run(g, steps).calls && Run(g, steps).calls[id].Done? && Run(g, steps).calls[id].decision.allowed
    ensures var s := Run(g, steps);
            && asked in s.answers && s.answers[asked].Answered? && s.answers[asked].decision.allowed
            && asked in s.calls && Key(s.calls[asked].info) == Key(s.calls[id].info)
  {
    var s := Run(g, steps);
    RunProvenance(g, steps);
    RunEndsAsSet(g, steps);
    assert EndsAsSet(g, s.calls[id]);
    asked := id;
    if s.calls[id].source.CacheHit? {
      RunHitsWritten(g, steps);
      assert HitWritten(g, s.calls[id], s.writes);
      var i :| 0 <= i < |s.writes| && s.writes[i].key == Key(s.calls[id].info) &&
               s.calls[id].decision == Audited(g, s.writes[i].decision);
      assert Justified(s, s.writes[i]);
      asked := s.writes[i].id;
    }
  }

  // ---------- Counters ----------

  /** A call is counted once it has its decision, unless the schema check rejected it. */
  predicate Counted(phase: Phase) {
    phase.ToStore? || (phase.Done? && !phase.source.SchemaCheck?)
  }

  ghost function Increments(s: State, id: nat): nat {
    s.hits[id] + s.errors[id] + s.evaluated[id]
  }

  /** One increment in all, once the call is counted. */
  ghost predicate IncrementExact(s: State, id: nat) {
    Increments(s, id) == if id in s.calls && Counted(s.calls[id]) then 1 else 0
  }

  /** The counter that a call increments is the one for what happened to it. */
  ghost predicate SourceExact(s: State, id: nat) {
    id in s.calls && Counted(s.calls[id]) ==>
      if !s.calls[id].Done? || s.calls[id].source.Evaluation? then s.evaluated[id] == 1
      else if s.calls[id].source.CacheHit? then s.hits[id] == 1
      else s.errors[id] == 1
  }

  lemma StepKeepsCounters(g: Settings, s: State, step: Step, id: nat)
    requires Enabled(s, step) && IncrementExact(s, id) && SourceExact(s, id)
    ensures IncrementExact(Apply(g, s, step), id) && SourceExact(Apply(g, s, step), id)
  {
  }

  /** In every run each call that passes the schema check increments exactly one of the three
      outcome counters, once, and the right one. */
  lemma {:induction false} CountersExactInEveryRun(g: Settings, steps: seq<Step>, id: nat)
    requires Possible(g, steps)
    ensures IncrementExact(Run(g, steps), id) && SourceExact(Run(g, steps), id)
  {
    if steps != [] {
      CountersExactInEveryRun(g, steps[..|steps| - 1], id);
      StepKeepsCounters(g, Run(g, steps[..|steps| - 1]), steps[|steps| - 1], id);
    }
  }

  // ---------- Bounded staleness ----------

  predicate InFlight(phase: Phase) {
    phase.HasParams? || phase.HasInput? || phase.Missed? || phase.ToStore?
  }

  /** The store is at version `v` or later, and no call in flight has read it earlier. */
  ghost predicate Settled(s: State, v: nat) {
    v <= s.version && forall id | id in s.calls && InFlight(s.calls[id]) :: v <= s.calls[id].version
  }

  /** Only entries that expire by `q` plus the TTL may predate version `v`, and no call outside `earlier`
      that finished from then on returned a decision that does. */
  ghost predicate Renewed(g: Settings, s: State, v: nat, q: real, earlier: set<nat>) {
    && q <= s.now
    && Settled(s, v)
    && (forall key | key in s.cache :: v <= s.cache[key].version || s.cache[key].expiry <= q + g.ttl)
    && (forall id | id in s.calls && id !in earlier :: UpToDate(g, s.calls[id], v, q))
  }

  ghost predicate UpToDate(g: Settings, phase: Phase, v: nat, q: real) {
    phase.Done? && !phase.source.SchemaCheck? && q + g.ttl <= phase.at ==> v <= phase.version
  }

  lemma StepKeepsRenewed(g: Settings, s: State, step: Step, v: nat, q: real, earlier: set<nat>)
    requires Enabled(s, step) && Renewed(g, s, v, q, earlier)
    ensures Renewed(g, Apply(g, s, step), v, q, earlier)
  {
    var t := Apply(g, s, step);
    forall id | id in t.calls
      ensures InFlight(t.calls[id]) ==> v <= t.calls[id].version
      ensures id !in earlier ==> UpToDate(g, t.calls[id], v, q)
    {
      if id in s.calls && InFlight(s.calls[id]) {
        assert v <= s.calls[id].version;
      }
    }
  }

  /** Once the TTL has passed since a moment at which no call in flight had read the store before
      version `v`, every decision that is returned stems from version `v` or later. */
  lemma {:induction false} NoStaleDecisions(g: Settings, before: seq<Step>, after: seq<Step>, v: nat)
    requires Possible(g, before) && Possible(g, before + after) && Settled(Run(g, before), v)
    ensures var s0 := Run(g, before);
            var finished := set id | id in s0.calls && s0.calls[id].Done?;
            Renewed(g, Run(g, before + after), v, s0.now, finished)
    decreases |after|
  {
    var s0 := Run(g, before);
    var finished := set id | id in s0.calls && s0.calls[id].Done?;
    if after == [] {
      assert before + after == before;
      forall key | key in s0.cache
        ensures s0.cache[key].expiry <= s0.now + g.ttl
      {
        ExpiryWithinTtl(g, before, key);
      }
    } else {
      var n := |after| - 1;
      assert (before + after)[..|before + after| - 1] == before + after[..n];
      NoStaleDecisions(g, before, after[..n], v);
      StepKeepsRenewed(g, Run(g, before + after[..n]), after[n], v, s0.now, finished);
    }
  }

  // ---------- When caching is transparent ----------

  /** The decision that a call gets when nothing is cached. */
  function Uncached(g: Settings, policy: Summary -> Decision, info: Summary): Decision {
    if SchemaVerdict(g, info).Accepted? then Audited(g, policy(info)) else Rejection(g, info)
  }

  /** Only queries in `asked` are evaluated, and the engine never fails and answers by `policy`. */
  ghost predicate Follows(g: Settings, steps: seq<Step>, policy: Summary -> Decision, asked: iset<Summary>)
    requires Possible(g, steps)
  {
    steps == [] ||
    (var init, last := steps[..|steps| - 1], steps[|steps| - 1];
     && Follows(g, init, policy, asked)
     && (last.Begin? ==> last.info in asked)
     && (last.Return? ==> last.outcome == Answered(policy(Run(g, init).calls[last.id].info))))
  }

  /** Queries that share a key get the same decision. */
  ghost predicate KeyDecides(g: Settings, policy: Summary -> Decision, asked: iset<Summary>) {
    forall a, b |
      && a in asked && b in asked && Key(a) == Key(b)
      && SchemaVerdict(g, a).Accepted? && SchemaVerdict(g, b).Accepted? ::
      Audited(g, policy(a)) == Audited(g, policy(b))
  }

  /** A decision of the policy on some accepted query with this key. */
  ghost predicate SharesKey(
    g: Settings, policy: Summary -> Decision, asked: iset<Summary>, key: string, d: Decision)
  {
    exists info ::
      info in asked && Key(info) == key && SchemaVerdict(g, info).Accepted? && d == Audited(g, policy(info))
  }

  /** The decision of a call is its uncached one, or with caching on that of an accepted query with the same key. */
  ghost predicate PhaseShared(g: Settings, policy: Summary -> Decision, asked: iset<Summary>, phase: Phase) {
    && phase.info in asked
    && (!phase.Done? ==> SchemaVerdict(g, phase.info).Accepted?)
    && (phase.Done? || phase.ToStore? ==>
          || phase.decision == Uncached(g, policy, phase.info)
          || (g.ttl > 0.0 && SchemaVerdict(g, phase.info).Accepted? &&
              SharesKey(g, policy, asked, Key(phase.info), phase.decision)))
    && (phase.ToStore? ==> SharesKey(g, policy, asked, Key(phase.info), phase.decision))
  }

  ghost predicate CallsShared(g: Settings, policy: Summary -> Decision, asked: iset<Summary>, s: State) {
    forall id | id in s.calls :: PhaseShared(g, policy, asked, s.calls[id])
  }

  ghost predicate CacheShared(g: Settings, policy: Summary -> Decision, asked: iset<Summary>, s: State) {
    forall key | key in s.cache :: SharesKey(g, policy, asked, key, s.cache[key].decision)
  }

  lemma LookShared(g: Settings, policy: Summary -> Decision, asked: iset<Summary>, s: State, id: nat)
    requires Enabled(s, Look(id)) && PhaseShared(g, policy, asked, s.calls[id]) && CacheShared(g, policy, asked, s)
    ensures PhaseShared(g, policy, asked, Apply(g, s, Look(id)).calls[id])
  {
  }

  lemma StepShared(g: Settings, policy: Summary -> Decision, asked: iset<Summary>, s: State, step: Step, id: nat)
    requires Enabled(s, step) && !step.Look? && id in Apply(g, s, step).calls
    requires id in s.calls ==> PhaseShared(g, policy, asked, s.calls[id])
    requires step.Return? ==> step.outcome == Answered(policy(s.calls[step.id].info))
    requires step.Begin? ==> step.info in asked
    ensures PhaseShared(g, policy, asked, Apply(g, s, step).calls[id])
  {
  }

  lemma StepKeepsCallsShared(
    g: Settings, policy: Summary -> Decision, asked: iset<Summary>, s: State, step: Step)
    requires Enabled(s, step) && CallsShared(g, policy, asked, s) && CacheShared(g, policy, asked, s)
    requires step.Return? ==> step.outcome == Answered(policy(s.calls[step.id].info))
    requires step.Begin? ==> step.info in asked
    ensures CallsShared(g, policy, asked, Apply(g, s, step))
  {
    forall id | id in Apply(g, s, step).calls
      ensures PhaseShared(g, policy, asked, Apply(g, s, step).calls[id])
    {
      if step.Look? {
        LookShared(g, policy, asked, s, step.id);
      } else {
        StepShared(g, policy, asked, s, step, id);
      }
    }
  }

  lemma StepKeepsCacheShared(
    g: Settings, policy: Summary -> Decision, asked: iset<Summary>, s: State, step: Step)
    requires Enabled(s, step) && CallsShared(g, policy, asked, s) && CacheShared(g, policy, asked, s)
    ensures CacheShared(g, policy, asked, Apply(g, s, step))
  {
  }

  /** In every run each finished call has its uncached decision, or the decision of the policy on an
      accepted query with the same key. */
  lemma {:induction false} DecisionsAreShared(
    g: Settings, steps: seq<Step>, policy: Summary -> Decision, asked: iset<Summary>)
    requires Possible(g, steps) && Follows(g, steps, policy, asked)
    ensures CallsShared(g, policy, asked, Run(g, steps)) && CacheShared(g, policy, asked, Run(g, steps))
  {
    if steps != [] {
      DecisionsAreShared(g, steps[..|steps| - 1], policy, asked);
      StepKeepsCallsShared(g, policy, asked, Run(g, steps[..|steps| - 1]), steps[|steps| - 1]);
      StepKeepsCacheShared(g, policy, asked, Run(g, steps[..|steps| - 1]), steps[|steps| - 1]);
    }
  }

  /** In every run each finished call has its uncached decision: always when caching is off,
      and with caching on when the key decides. */
  lemma CachingRight(
    g: Settings, steps: seq<Step>, policy: Summary -> Decision, asked: iset<Summary>, id: nat)
    requires Possible(g, steps) && Follows(g, steps, policy, asked)
    requires id in Run(g, steps).calls && Run(g, steps).calls[id].Done?
    requires g.ttl > 0.0 ==> KeyDecides(g, policy, asked)
    ensures Run(g, steps).calls[id].decision == Uncached(g, policy, Run(g, steps).calls[id].info)
  {
    DecisionsAreShared(g, steps, policy, asked);
    assert PhaseShared(g, policy, asked, Run(g, steps).calls[id]);
  }

  /** Every call in every run on queries in `asked` gets the decision it would get without a cache. */
  ghost predicate Transparent(g: Settings, policy: Summary -> Decision, asked: iset<Summary>) {
    forall steps, id |
      && Possible(g, steps) && Follows(g, steps, policy, asked) && id in Run(g, steps).calls
      && Run(g, steps).calls[id].Done?
      :: Run(g, steps).calls[id].decision == Uncached(g, policy, Run(g, steps).calls[id].info)
  }

  /** Takes one more step. */
  lemma Extend(
    g: Settings, steps: seq<Step>, step: Step, policy: Summary -> Decision, asked: iset<Summary>)
    returns (more: seq<Step>)
    requires Possible(g, steps) && Follows(g, steps, policy, asked) && Enabled(Run(g, steps), step)
    requires step.Return? ==> step.outcome == Answered(policy(Run(g, steps).calls[step.id].info))
    requires step.Begin? ==> step.info in asked
    ensures Possible(g, more) && Follows(g, more, policy, asked) && Run(g, more) == Apply(g, Run(g, steps), step)
  {
    more := steps + [step];
    RunMore(g, steps, step);
    assert more[..|steps|] == steps;
  }

  /** A new call for an accepted query, up to its lookup. */
  lemma Approach(
    g: Settings, steps: seq<Step>, policy: Summary -> Decision, asked: iset<Summary>, id: nat, info: Summary)
    returns (more: seq<Step>)
    requires Possible(g, steps) && Follows(g, steps, policy, asked)
    requires id !in Run(g, steps).calls && info in asked && SchemaVerdict(g, info).Accepted?
    ensures Possible(g, more) && Follows(g, more, policy, asked)
    ensures var s := Run(g, steps); Run(g, more) == Move(s, id, HasInput(info, s.version))
  {
    var s := Run(g, steps);
    more := Extend(g, steps, Begin(id, info), policy, asked);
    more := Extend(g, more, ReadParams(id), policy, asked);
    more := Extend(g, more, ReadTenant(id), policy, asked);
    assert s.calls[id := Checked(info)][id := HasParams(info, s.version)][id := HasInput(info, s.version)] ==
           s.calls[id := HasInput(info, s.version)];
  }

  /** A first call leaves its decision in the cache. */
  lemma FirstCall(g: Settings, policy: Summary -> Decision, asked: iset<Summary>, a: Summary)
    returns (steps: seq<Step>)
    requires a in asked && g.ttl > 0.0 && SchemaVerdict(g, a).Accepted?
    ensures Possible(g, steps) && Follows(g, steps, policy, asked)
    ensures var s := Run(g, steps);
            1 !in s.calls && Fresh(g, s, Key(a)) && s.cache[Key(a)].decision == Audited(g, policy(a))
  {
    steps := Approach(g, [], policy, asked, 0, a);
    var s := Run(g, steps);
    steps := Extend(g, steps, Look(0), policy, asked);
    assert Run(g, steps) == Move(s, 0, Missed(a, 0));
    steps := Extend(g, steps, Return(0, Answered(policy(a))), policy, asked);
    assert Run(g, steps).calls[0] == ToStore(a, 0, Audited(g, policy(a)));
    steps := Extend(g, steps, Store(0), policy, asked);
  }

  /** Two calls in a row for queries that share a key: the second gets the decision of the first. */
  lemma SecondGetsFirst(
    g: Settings, policy: Summary -> Decision, asked: iset<Summary>, a: Summary, b: Summary)
    returns (steps: seq<Step>)
    requires a in asked && b in asked && g.ttl > 0.0 && Key(a) == Key(b)
    requires SchemaVerdict(g, a).Accepted? && SchemaVerdict(g, b).Accepted?
    ensures Possible(g, steps) && Follows(g, steps, policy, asked)
    ensures var s := Run(g, steps);
            1 in s.calls && s.calls[1].Done? && s.calls[1].info == b && s.calls[1].decision == Audited(g, policy(a))
  {
    steps := FirstCall(g, policy, asked, a);
    steps := Approach(g, steps, policy, asked, 1, b);
    steps := Extend(g, steps, Look(1), policy, asked);
  }

  /** Caching changes no decision in any run exactly when the key decides. */
  lemma TransparentExactlyWhenKeyDecides(g: Settings, policy: Summary -> Decision, asked: iset<Summary>)
    requires g.ttl > 0.0
    ensures Transparent(g, policy, asked) <==> KeyDecides(g, policy, asked)
  {
    if KeyDecides(g, policy, asked) {
      forall steps, id |
        && Possible(g, steps) && Follows(g, steps, policy, asked) && id in Run(g, steps).calls
        && Run(g, steps).calls[id].Done?
        ensures Run(g, steps).calls[id].decision == Uncached(g, policy, Run(g, steps).calls[id].info)
      {
        CachingRight(g, steps, policy, asked, id);
      }
    } else {
      var a, b :| a in asked && b in asked && Key(a) == Key(b) &&
                  SchemaVerdict(g, a).Accepted? && SchemaVerdict(g, b).Accepted? &&
                  Audited(g, policy(a)) != Audited(g, policy(b));
      var steps := SecondGetsFirst(g, policy, asked, a, b);
      assert Run(g, steps).calls[1].decision != Uncached(g, policy, b);
    }
  }

  // ---------- The code ----------

  datatype Cached = Cached(decision: Decision, expiry: real)

  /** What one undisturbed call does: its decision and the cache it leaves. */
  function Sequential(
    g: Settings, cache: map<string, Cached>, info: Summary, engine: Summary -> Outcome, lookupAt: real, storeAt: real)
    : (Decision, map<string, Cached>)
  {
    var key := Key(info);
    if !SchemaVerdict(g, info).Accepted? then (Rejection(g, info), cache)
    else if g.ttl > 0.0 && key in cache && lookupAt < cache[key].expiry then
      (Audited(g, cache[key].decision), cache)
    else Consult(g, cache, key, engine(info), storeAt)
  }

  /** What a call does with the answer of the engine. */
  function Consult(g: Settings, cache: map<string, Cached>, key: string, outcome: Outcome, storeAt: real)
    : (Decision, map<string, Cached>)
  {
    match outcome
    case EngineError => (Fallback(g), cache)
    case Answered(d) =>
      (Audited(g, d), if g.ttl > 0.0 then cache[key := Cached(Audited(g, d), storeAt + g.ttl)] else cache)
  }

  /** When a call reaches the engine and the engine fails, the cache is left alone. */
  lemma SequentialFailure(
    g: Settings, cache: map<string, Cached>, info: Summary, engine: Summary -> Outcome, lookupAt: real, storeAt: real)
    requires SchemaVerdict(g, info).Accepted? && engine(info).EngineError?
    requires g.ttl > 0.0 && Key(info) in cache ==> cache[Key(info)].expiry <= lookupAt
    ensures var r := Sequential(g, cache, info, engine, lookupAt, storeAt); FailsAsSet(g, r.0) && r.1 == cache
  {
  }

  /** When the engine answers, the call gets the answer, and leaves what it got in the cache for one TTL. */
  lemma SequentialAnswer(
    g: Settings, cache: map<string, Cached>, info: Summary, engine: Summary -> Outcome, lookupAt: real, storeAt: real)
    requires SchemaVerdict(g, info).Accepted? && engine(info).Answered?
    requires g.ttl > 0.0 && Key(info) in cache ==> cache[Key(info)].expiry <= lookupAt
    ensures var r := Sequential(g, cache, info, engine, lookupAt, storeAt);
            && Delivers(g, engine(info).decision, r.0)
            && r.1 == if g.ttl <= 0.0 then cache else cache[Key(info) := Cached(r.0, storeAt + g.ttl)]
  {
  }

  /** The segment `k` of a path is where it leaves the schema, with the reason that is given for it. */
  ghost predicate LeavesAt(
    schema: Schema.SchemaInfo, root: Schema.Definition, names: seq<string>, k: nat, reason: string)
  {
    && k < |names| && Schema.PathVerdict(schema, Schema.At(root), names[..k]).Accepted?
    && var position := Schema.DescendAll(schema, Schema.At(root), names[..k]);
       && position.At?
       && var field := Schema.FieldForName(position.definition.fields, names[k]);
          if field.None? then
            reason == "field \"" + names[k] + "\" does not exist on type \"" + position.definition.name + "\""
          else
            && k + 1 < |names|
            && var named := Schema.ResolveNamedType(field.value.fieldType);
               if named == "" then reason == "cannot resolve return type for field \"" + names[k] + "\""
               else named !in schema.types && reason == "type \"" + named + "\" not found in schema"
  }

  lemma LeavingVerdict(
    schema: Schema.SchemaInfo, root: Schema.Definition, names: seq<string>, k: nat, reason: string)
    requires LeavesAt(schema, root, names, k, reason)
    ensures var verdict := Schema.PathVerdict(schema, Schema.At(root), names);
            !verdict.Accepted? && Message(verdict) == reason
  {
    var position := Schema.DescendAll(schema, Schema.At(root), names[..k]);
    Schema.PathVerdictSplits(schema, Schema.At(root), names, k);
    assert names[k..][0] == names[k];
    if Schema.FieldForName(position.definition.fields, names[k]).Some? {
      assert names[k..][1..] == names[k + 1..] && names[k + 1..] != [];
    }
  }

  /** A query whose i-th path is the first to leave the schema is denied for that reason, unseen by the engine. */
  lemma RejectedWithReason(
    g: Settings, cache: map<string, Cached>, info: Summary, engine: Summary -> Outcome, lookupAt: real, storeAt: real,
    root: Schema.Definition, i: nat, k: nat, reason: string)
    requires g.schema.Some? && Schema.RootType(g.schema.value, info.operationType) == Some(root)
    requires var paths := Schema.SplitAll(info.fieldPaths);
             && i < |paths| && LeavesAt(g.schema.value, root, paths[i], k, reason)
             && forall j | 0 <= j < i :: Schema.PathVerdict(g.schema.value, Schema.At(root), paths[j]).Accepted?
    ensures Sequential(g, cache, info, engine, lookupAt, storeAt) == (Decision(false, reason), cache)
  {
    var paths := Schema.SplitAll(info.fieldPaths);
    LeavingVerdict(g.schema.value, root, paths[i], k, reason);
    Schema.FirstFailureIs(g.schema.value, Schema.At(root), paths, i);
  }

  class CompositeEvaluator {
    const settings: Settings
    var cache: map<string, Cached>

    constructor (g: Settings)
      ensures settings == g && cache == map[]
    {
      settings := g;
      cache := map[];
    }

    method Evaluate(info: Summary, engine: Summary -> Outcome, lookupAt: real, storeAt: real) returns (d: Decision)
      modifies this
      ensures (d, cache) == Sequential(settings, old(cache), info, engine, lookupAt, storeAt)
      ensures SchemaVerdict(settings, info).Accepted? && engine(info).EngineError?
              && (settings.ttl > 0.0 && Key(info) in old(cache) ==> old(cache)[Key(info)].expiry <= lookupAt) ==>
                FailsAsSet(settings, d) && cache == old(cache)
      ensures SchemaVerdict(settings, info).Accepted? && engine(info).Answered?
              && (settings.ttl > 0.0 && Key(info) in old(cache) ==> old(cache)[Key(info)].expiry <= lookupAt) ==>
                Delivers(settings, engine(info).decision, d)
    {
      if settings.schema.Some? {
        var verdict := Schema.Validate(settings.schema.value, info.operationType, info.fieldPaths);
        if !verdict.Accepted? {
          return Decision(false, Message(verdict));
        }
      }
      var cacheKey := Key(info);
      if settings.ttl > 0.0 {
        if cacheKey in cache && lookupAt < cache[cacheKey].expiry {
          var cached := cache[cacheKey];
          if settings.auditOnly && !cached.decision.allowed {
            return ALLOW;
          }
          return cached.decision;
        }
      }
      var outcome := engine(info);
      if outcome.EngineError? {
        if settings.failClosed {
          return Fallback(settings);
        }
        return ALLOW;
      }
      d := outcome.decision;
      if !d.allowed {
        if settings.auditOnly {
          d := ALLOW;
        }
      }
      if settings.ttl > 0.0 {
        cache := cache[cacheKey := Cached(d, storeAt + settings.ttl)];
      }
    }
  }

  /** The cache of a state without the history of its entries. */
  ghost function Plain(s: State): map<string, Cached> {
    map key | key in s.cache :: Cached(s.cache[key].decision, s.cache[key].expiry)
  }

  /** A call that runs undisturbed from any reachable state takes the steps of the machine. */
  lemma SequentialIsARun(
    g: Settings, steps: seq<Step>, id: nat, info: Summary, engine: Summary -> Outcome, lookupAt: real, storeAt: real)
    returns (more: seq<Step>)
    requires Possible(g, steps) && id !in Run(g, steps).calls && Run(g, steps).now <= lookupAt <= storeAt
    ensures Possible(g, more)
    ensures var s := Run(g, more);
            && id in s.calls && s.calls[id].Done?
            && (s.calls[id].decision, Plain(s)) ==
               Sequential(g, Plain(Run(g, steps)), info, engine, lookupAt, storeAt)
  {
    var before := Run(g, steps);
    more := Advance(g, steps, Tick(lookupAt));
    more := Advance(g, more, Begin(id, info));
    if SchemaVerdict(g, info).Accepted? {
      more := Advance(g, more, ReadParams(id));
      more := Advance(g, more, ReadTenant(id));
      assert Plain(Run(g, more)) == Plain(before);
      more := SequentialFromLookup(g, more, id, engine, storeAt);
    }
  }

  lemma SequentialFromLookup(g: Settings, steps: seq<Step>, id: nat, engine: Summary -> Outcome, storeAt: real)
    returns (more: seq<Step>)
    requires Possible(g, steps) && Enabled(Run(g, steps), Look(id)) && Run(g, steps).now <= storeAt
    requires SchemaVerdict(g, Run(g, steps).calls[id].info).Accepted?
    ensures Possible(g, more)
    ensures var s, t := Run(g, steps), Run(g, more);
            && id in t.calls && t.calls[id].Done?
            && (t.calls[id].decision, Plain(t)) ==
               Sequential(g, Plain(s), s.calls[id].info, engine, s.now, storeAt)
  {
    var s := Run(g, steps);
    var info := s.calls[id].info;
    more := Advance(g, steps, Look(id));
    if Fresh(g, s, Key(info)) {
      HitAlone(g, s, id, engine, storeAt);
    } else {
      more := SequentialFromMiss(g, more, id, engine(info), storeAt);
    }
  }

  lemma SequentialFromMiss(g: Settings, steps: seq<Step>, id: nat, outcome: Outcome, storeAt: real)
    returns (more: seq<Step>)
    requires Possible(g, steps) && Enabled(Run(g, steps), Return(id, outcome)) && Run(g, steps).now <= storeAt
    ensures Possible(g, more)
    ensures var s, t := Run(g, steps), Run(g, more);
            && id in t.calls && t.calls[id].Done?
            && (t.calls[id].decision, Plain(t)) == Consult(g, Plain(s), Key(s.calls[id].info), outcome, storeAt)
  {
    ReturnAlone(g, Run(g, steps), id, outcome, storeAt);
    more := Advance(g, steps, Return(id, outcome));
    if Run(g, more).calls[id].ToStore? {
      more := StoreLater(g, more, id, storeAt);
    }
  }

  lemma StoreLater(g: Settings, steps: seq<Step>, id: nat, storeAt: real) returns (more: seq<Step>)
    requires Possible(g, steps) && Enabled(Run(g, steps), Store(id)) && Run(g, steps).now <= storeAt
    ensures Possible(g, more)
    ensures Run(g, more) == Apply(g, Apply(g, Run(g, steps), Tick(storeAt)), Store(id))
    ensures var s, t := Run(g, steps), Run(g, more);
            && id in t.calls && t.calls[id].Done? && t.calls[id].decision == s.calls[id].decision
            && Plain(t) == Plain(s)[Key(s.calls[id].info) := Cached(s.calls[id].decision, storeAt + g.ttl)]
  {
    StoreAlone(g, Run(g, steps), id, storeAt);
    more := Advance(g, steps, Tick(storeAt));
    more := Advance(g, more, Store(id));
  }

  lemma HitAlone(g: Settings, s: State, id: nat, engine: Summary -> Outcome, storeAt: real)
    requires Enabled(s, Look(id)) && Fresh(g, s, Key(s.calls[id].info))
    requires SchemaVerdict(g, s.calls[id].info).Accepted?
    ensures var t := Apply(g, s, Look(id));
            (t.calls[id].decision, Plain(t)) == Sequential(g, Plain(s), s.calls[id].info, engine, s.now, storeAt)
  {
  }

  lemma ReturnAlone(g: Settings, s: State, id: nat, outcome: Outcome, storeAt: real)
    requires Enabled(s, Return(id, outcome))
    ensures var t, key := Apply(g, s, Return(id, outcome)), Key(s.calls[id].info);
            var expected := Consult(g, Plain(s), key, outcome, storeAt);
            && t.now == s.now && id in t.calls && t.calls[id].info == s.calls[id].info
            && (t.calls[id].Done? || t.calls[id].ToStore?) && t.calls[id].decision == expected.0
            && expected.1 == if t.calls[id].Done? then Plain(t)
                             else Plain(t)[key := Cached(t.calls[id].decision, storeAt + g.ttl)]
  {
  }

  lemma StoreAlone(g: Settings, s: State, id: nat, storeAt: real)
    requires Enabled(s, Store(id)) && s.now <= storeAt
    ensures var t := Apply(g, Apply(g, s, Tick(storeAt)), Store(id));
            && id in t.calls && t.calls[id].Done? && t.calls[id].decision == s.calls[id].decision
            && Plain(t) == Plain(s)[Key(s.calls[id].info) := Cached(s.calls[id].decision, storeAt + g.ttl)]
  {
  }

  lemma Advance(g: Settings, steps: seq<Step>, step: Step) returns (more: seq<Step>)
    requires Possible(g, steps) && Enabled(Run(g, steps), step)
    ensures Possible(g, more) && Run(g, more) == Apply(g, Run(g, steps), step)
  {
    more := steps + [step];
    RunMore(g, steps, step);
  }
}
