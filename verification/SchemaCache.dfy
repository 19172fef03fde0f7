/** The schema cache beside the validation-template table: cache-aside reads with a
    detached populate, and admin writes that invalidate after they commit.

    A run interleaves the statements of any number of lookups and writes. The log
    records, in order, the reads and landings of populates and the writes and
    invalidations of admin calls. */
module SchemaCache {
  import opened Text
  import opened Json
  import opened Identifiers

  datatype TemplateStatus = Draft | Active | Inactive

  datatype Template = Template(product: string, event: string, schema: Json, status: TemplateStatus)

  /** What a template is for: the properties of a product, or one event of it. */
  datatype Subject = Subject(product: string, event: string)

  function SubjectOf(t: Template): Subject { Subject(t.product, t.event) }

  // ----- Cache keys ----------------------------------------------------------------------

  /** Property schemas are cached under the product, event schemas under
      `event:{product}:{event}`. */
  function CacheKey(x: Subject): string {
    if x.event == "property" then x.product else "event:" + x.product + ":" + x.event
  }

  /** Keys never collide when product ids hold no colon, whatever the event names are. */
  lemma CacheKeyInjective(x: Subject, y: Subject)
    requires ':' !in x.product && ':' !in y.product
    requires CacheKey(x) == CacheKey(y)
    ensures x == y
  {
    if x.event != "property" { EventKeySplits(x); }
    if y.event != "property" { EventKeySplits(y); }
  }

  lemma EventKeySplits(x: Subject)
    requires ':' !in x.product && x.event != "property"
    ensures ':' in CacheKey(x) && |CacheKey(x)| >= 6
    ensures SplitOnce(CacheKey(x)[6..], ':') == Some((x.product, x.event))
  {
    var key := CacheKey(x);
    assert key[5] == ':';
    assert key[6..] == x.product + [':'] + x.event;
    SplitOnceUnique(x.product, ':', x.event);
  }

  // ----- The template table --------------------------------------------------------------

  type Templates = map<int, Template>

  predicate IsActive(t: Template, x: Subject) { SubjectOf(t) == x && t.status == Active }

  ghost predicate UniqueActive(ts: Templates) {
    forall i, j | i in ts && j in ts && ts[i].status == Active && ts[j].status == Active
                  && SubjectOf(ts[i]) == SubjectOf(ts[j]) :: i == j
  }

  /** `SELECT .. WHERE product_id = .. AND event = .. AND status = Active`. */
  ghost function ActiveSchema(ts: Templates, x: Subject): Option<Json> {
    if id :| id in ts && IsActive(ts[id], x) then Some(ts[id].schema) else None
  }

  lemma ActiveSchemaIs(ts: Templates, x: Subject, id: int)
    requires UniqueActive(ts) && id in ts && IsActive(ts[id], x)
    ensures ActiveSchema(ts, x) == Some(ts[id].schema)
  {
  }

  /** Tables with the same Active templates of a subject select the same schema. */
  lemma SameActive(ts: Templates, ts': Templates, x: Subject)
    requires UniqueActive(ts) && UniqueActive(ts')
    requires forall id | id in ts && IsActive(ts[id], x) :: id in ts' && ts'[id] == ts[id]
    requires forall id | id in ts' && IsActive(ts'[id], x) :: id in ts && ts[id] == ts'[id]
    ensures ActiveSchema(ts', x) == ActiveSchema(ts, x)
  {
    if id :| id in ts && IsActive(ts[id], x) {
      ActiveSchemaIs(ts, x, id);
      ActiveSchemaIs(ts', x, id);
    }
  }

  datatype Op = SetStatus(status: TemplateStatus) | SetSchema(schema: Json) | Remove

  /** The write is executed and affects a row. The schema of an Active template is
      refused, so that it can change only while the template is not in use. */
  predicate Affects(ts: Templates, id: int, op: Op) {
    id in ts && (op.SetSchema? ==> ts[id].status != Active)
  }

  /** The transaction: activating a template deactivates the other Active template of
      the same subject. */
  function Apply(ts: Templates, id: int, op: Op): Templates
    requires Affects(ts, id, op)
  {
    match op
    case SetStatus(st) =>
      map i | i in ts ::
        if i == id then ts[i].(status := st)
        else if st == Active && IsActive(ts[i], SubjectOf(ts[id])) then ts[i].(status := Inactive)
        else ts[i]
    case SetSchema(schema) => ts[id := ts[id].(schema := schema)]
    case Remove => ts - {id}
  }

  /** A write keeps at most one Active template for each subject, and changes the schema in
      force only for the subject of the template it names. */
  lemma ApplyLocal(ts: Templates, id: int, op: Op, x: Subject)
    requires UniqueActive(ts) && Affects(ts, id, op)
    ensures UniqueActive(Apply(ts, id, op))
    ensures x != SubjectOf(ts[id]) ==> ActiveSchema(Apply(ts, id, op), x) == ActiveSchema(ts, x)
    ensures op.SetSchema? ==> ActiveSchema(Apply(ts, id, op), x) == ActiveSchema(ts, x)
  {
    if x != SubjectOf(ts[id]) || op.SetSchema? {
      SameActive(ts, Apply(ts, id, op), x);
    }
  }

  /** No template of the subject is in force. */
  lemma NoActiveSchema(ts: Templates, x: Subject)
    requires forall id | id in ts :: !IsActive(ts[id], x)
    ensures ActiveSchema(ts, x) == None
  {
  }

  /** What a write does to the rows: the named one gets the status or the schema, or goes;
      of the others only an Active one of the same subject changes, and only when the named
      one is activated: it becomes Inactive. */
  ghost predicate RowsAfter(ts: Templates, id: int, op: Op, ts': Templates) {
    && ts'.Keys == (if op.Remove? then ts.Keys - {id} else ts.Keys)
    && (op.SetStatus? ==> id in ts && id in ts' && ts'[id] == ts[id].(status := op.status))
    && (op.SetSchema? ==> id in ts && id in ts' && ts'[id] == ts[id].(schema := op.schema))
    && forall i | i in ts && id in ts && i != id ::
         i in ts' && ts'[i] ==
           if op == SetStatus(Active) && ts[i].status == Active
              && ts[i].product == ts[id].product && ts[i].event == ts[id].event
           then ts[i].(status := Inactive)
           else ts[i]
  }

  /** What a write does to the schema in force for the subject of the template it names. */
  ghost predicate InForceAfter(ts: Templates, id: int, op: Op, ts': Templates)
    requires id in ts
  {
    var x, t := SubjectOf(ts[id]), ts[id];
    ActiveSchema(ts', x) ==
      if op == SetStatus(Active) then Some(t.schema)
      else if t.status == Active then None
      else ActiveSchema(ts, x)
  }

  lemma ApplyRows(ts: Templates, id: int, op: Op)
    requires Affects(ts, id, op)
    ensures RowsAfter(ts, id, op, Apply(ts, id, op))
  {
  }

  /** Activation puts the named template's schema in force; any other write to the Active
      template leaves its subject without a schema; any other write to a template that is not
      Active changes nothing in force. */
  lemma ApplyInForce(ts: Templates, id: int, op: Op)
    requires UniqueActive(ts) && Affects(ts, id, op)
    ensures InForceAfter(ts, id, op, Apply(ts, id, op))
  {
    var x, ts' := SubjectOf(ts[id]), Apply(ts, id, op);
    ApplyLocal(ts, id, op, x);
    if op == SetStatus(Active) {
      ActiveSchemaIs(ts', x, id);
    } else if ts[id].status == Active {
      forall i | i in ts' ensures !IsActive(ts'[i], x) {
        if i != id { assert !IsActive(ts[i], x); }
      }
      NoActiveSchema(ts', x);
    } else {
      SameActive(ts, ts', x);
    }
  }

  /** A schema edit is what a later activation puts in force. */
  lemma EditThenActivate(ts: Templates, id: int, schema: Json)
    requires UniqueActive(ts) && Affects(ts, id, SetSchema(schema))
    ensures var edited := Apply(ts, id, SetSchema(schema));
            && Affects(edited, id, SetStatus(Active))
            && ActiveSchema(Apply(edited, id, SetStatus(Active)), SubjectOf(ts[id])) == Some(schema)
  {
    var edited := Apply(ts, id, SetSchema(schema));
    ApplyLocal(ts, id, SetSchema(schema), SubjectOf(ts[id]));
    ApplyRows(ts, id, SetSchema(schema));
    ApplyInForce(edited, id, SetStatus(Active));
  }

  // ----- The machine ---------------------------------------------------------------------

  datatype Event =
    | Read(p: nat, subject: Subject)            // a lookup missed and read the table
    | Landed(p: nat, subject: Subject)          // its detached populate reached the cache
    | Wrote(w: nat, subject: Subject, blind: bool)
    | Invalidated(w: nat, subject: Subject)

  /** A populate on its way: what was read, and when. */
  datatype Populate = Populate(subject: Subject, schema: Json, readAt: nat)

  /** An admin call: it has fetched the template by id, or it has written and is about
      to invalidate. */
  datatype Writer =
    | Fetched(id: int, op: Op, template: Option<Template>)
    | Written(subject: Subject)

  /** Where the cached value of a subject comes from. */
  datatype Origin = Origin(p: nat, readAt: nat, landedAt: nat)

  datatype State = State(templates: Templates, next: int, cache: map<string, Json>,
                         populates: map<nat, Populate>, writers: map<nat, Writer>,
                         origin: map<string, Origin>, log: seq<Event>, names: set<nat>)

  datatype Step =
    | Insert(subject: Subject, schema: Json)
    | Lookup(p: nat, subject: Subject)          // the part after a cache miss
    | Land(p: nat)
    | Fetch(w: nat, id: int, op: Op)
    | Write(w: nat)
    | Invalidate(w: nat)

  const Init := State(map[], 1, map[], map[], map[], map[], [], {})

  function InsertTemplate(s: State, x: Subject, schema: Json): State {
    if ValidIdentifier(x.product) then
      s.(templates := s.templates[s.next := Template(x.product, x.event, schema, Draft)], next := s.next + 1)
    else s
  }

  ghost function ReadTable(s: State, p: nat, x: Subject): State {
    if p in s.names || !ValidIdentifier(x.product) then s else
    match ActiveSchema(s.templates, x)
    case None => s
    case Some(schema) =>
      s.(populates := s.populates[p := Populate(x, schema, |s.log|)],
         log := s.log + [Read(p, x)], names := s.names + {p})
  }

  function LandPopulate(s: State, p: nat): State {
    if p !in s.populates then s else
    var pop := s.populates[p];
    var key := CacheKey(pop.subject);
    s.(cache := s.cache[key := pop.schema],
       origin := s.origin[key := Origin(p, pop.readAt, |s.log|)],
       populates := s.populates - {p}, log := s.log + [Landed(p, pop.subject)])
  }

  function FetchTemplate(s: State, w: nat, id: int, op: Op): State {
    if w in s.names then s else
    s.(writers := s.writers[w := Fetched(id, op, if id in s.templates then Some(s.templates[id]) else None)],
       names := s.names + {w})
  }

  /** A call that affects a row goes on to invalidate the key of the template it had
      fetched; a call that had fetched nothing invalidates nothing. */
  function WriteTable(s: State, w: nat): State {
    if w !in s.writers || !s.writers[w].Fetched? then s else
    var Fetched(id, op, template) := s.writers[w];
    if !Affects(s.templates, id, op) then s.(writers := s.writers - {w}) else
    var blind := template.None?;
    s.(templates := Apply(s.templates, id, op),
       writers := if blind then s.writers - {w} else s.writers[w := Written(SubjectOf(template.value))],
       log := s.log + [Wrote(w, SubjectOf(s.templates[id]), blind)])
  }

  function InvalidateKey(s: State, w: nat): State {
    if w !in s.writers || !s.writers[w].Written? then s else
    var x := s.writers[w].subject;
    s.(cache := s.cache - {CacheKey(x)}, origin := s.origin - {CacheKey(x)},
       writers := s.writers - {w}, log := s.log + [Invalidated(w, x)])
  }

  ghost function Next(s: State, step: Step): State {
    match step
    case Insert(x, schema) => InsertTemplate(s, x, schema)
    case Lookup(p, x) => ReadTable(s, p, x)
    case Land(p) => LandPopulate(s, p)
    case Fetch(w, id, op) => FetchTemplate(s, w, id, op)
    case Write(w) => WriteTable(s, w)
    case Invalidate(w) => InvalidateKey(s, w)
  }

  ghost function Run(s: State, steps: seq<Step>): State {
    if steps == [] then s else Next(Run(s, steps[..|steps| - 1]), steps[|steps| - 1])
  }

  // ----- The invariant -------------------------------------------------------------------

  ghost predicate TableOk(s: State) { TemplatesOk(s) && WritersOk(s) && PopulatesNamed(s) }

  ghost predicate TemplatesOk(s: State) {
    && UniqueActive(s.templates)
    && (forall id | id in s.templates :: id < s.next && ':' !in s.templates[id].product)
  }

  ghost predicate WritersOk(s: State) {
    && s.writers.Keys <= s.names
    && forall w | w in s.writers :: WriterOk(s, s.writers[w])
  }

  /** The subject of a template never changes, and ids are never reused. */
  ghost predicate WriterOk(s: State, w: Writer) {
    match w
    case Written(x) => ':' !in x.product
    case Fetched(id, op, None) => true
    case Fetched(id, op, Some(t)) =>
      && ':' !in t.product && id < s.next
      && (id in s.templates ==> SubjectOf(s.templates[id]) == SubjectOf(t))
  }

  ghost predicate PopulatesNamed(s: State) {
    && s.populates.Keys <= s.names
    && forall p | p in s.populates :: ':' !in s.populates[p].subject.product
  }

  /** Since log position `from`, some call wrote to the subject. */
  ghost predicate WroteSince(log: seq<Event>, x: Subject, from: nat) {
    exists i :: from <= i < |log| && log[i].Wrote? && log[i].subject == x
  }

  /** A value read at `readAt` is the schema in force unless the subject was written since. */
  ghost predicate Faithful(s: State, x: Subject, schema: Json, p: nat, readAt: nat) {
    && readAt < |s.log| && s.log[readAt] == Read(p, x)
    && (WroteSince(s.log, x, readAt) || ActiveSchema(s.templates, x) == Some(schema))
  }

  ghost predicate PopulatesOk(s: State, x: Subject) {
    forall p | p in s.populates && s.populates[p].subject == x ::
      Faithful(s, x, s.populates[p].schema, p, s.populates[p].readAt)
  }

  /** Each non-blind write of the subject has still to invalidate, or did so. */
  ghost predicate WritesOk(s: State, x: Subject) {
    forall i | 0 <= i < |s.log| && s.log[i].Wrote? && s.log[i].subject == x && !s.log[i].blind ::
      Pending(s, s.log[i].w, x) || InvalidatedBetween(s.log, s.log[i].w, x, i, |s.log|)
  }

  ghost predicate Pending(s: State, w: nat, x: Subject) { w in s.writers && s.writers[w] == Written(x) }

  ghost predicate InvalidatedBetween(log: seq<Event>, w: nat, x: Subject, from: nat, to: nat) {
    exists v :: from < v < to && v < |log| && log[v] == Invalidated(w, x)
  }

  /** A cached value is faithful, and it landed after the invalidation of every
      non-blind write since its read that is not still to invalidate. */
  ghost predicate EntryOk(s: State, x: Subject) {
    var key := CacheKey(x);
    && (key in s.cache <==> key in s.origin)
    && (key in s.cache ==>
          var o := s.origin[key];
          && Faithful(s, x, s.cache[key], o.p, o.readAt)
          && o.readAt < o.landedAt < |s.log| && s.log[o.landedAt] == Landed(o.p, x)
          && forall i | o.readAt <= i < |s.log| && s.log[i].Wrote? && s.log[i].subject == x && !s.log[i].blind ::
               Pending(s, s.log[i].w, x) || InvalidatedBetween(s.log, s.log[i].w, x, i, o.landedAt))
  }

  ghost predicate SubjectOk(s: State, x: Subject) { PopulatesOk(s, x) && WritesOk(s, x) && EntryOk(s, x) }

  // ----- Every step keeps the invariant ----------------------------------------------------

  lemma FaithfulKept(s: State, s': State, x: Subject, schema: Json, p: nat, readAt: nat)
    requires Faithful(s, x, schema, p, readAt) && s.log <= s'.log
    requires ActiveSchema(s'.templates, x) == ActiveSchema(s.templates, x) || WroteSince(s'.log, x, |s.log|)
    ensures Faithful(s', x, schema, p, readAt)
  {
    if WroteSince(s.log, x, readAt) {
      var i :| readAt <= i < |s.log| && s.log[i].Wrote? && s.log[i].subject == x;
      assert s'.log[i] == s.log[i];
    }
  }

  lemma InvalidatedKept(log: seq<Event>, log': seq<Event>, w: nat, x: Subject, from: nat, to: nat, to': nat)
    requires InvalidatedBetween(log, w, x, from, to) && log <= log' && to <= to'
    ensures InvalidatedBetween(log', w, x, from, to')
  {
    var v :| from < v < to && v < |log| && log[v] == Invalidated(w, x);
    assert log'[v] == log[v];
  }

  /** A write of the subject that is settled in `s` stays settled in `s'`. */
  ghost predicate PendingKept(s: State, s': State, x: Subject) {
    forall w | Pending(s, w, x) :: Pending(s', w, x)
  }

  lemma WritesKept(s: State, s': State, x: Subject)
    requires WritesOk(s, x) && s.log <= s'.log && PendingKept(s, s', x)
    requires forall i | |s.log| <= i < |s'.log| && s'.log[i].Wrote? && s'.log[i].subject == x && !s'.log[i].blind ::
               Pending(s', s'.log[i].w, x)
    ensures WritesOk(s', x)
  {
    forall i | 0 <= i < |s'.log| && s'.log[i].Wrote? && s'.log[i].subject == x && !s'.log[i].blind
      ensures Pending(s', s'.log[i].w, x) || InvalidatedBetween(s'.log, s'.log[i].w, x, i, |s'.log|)
    {
      if i < |s.log| {
        assert s'.log[i] == s.log[i];
        if !Pending(s, s.log[i].w, x) {
          InvalidatedKept(s.log, s'.log, s.log[i].w, x, i, |s.log|, |s'.log|);
        }
      }
    }
  }

  lemma EntryKept(s: State, s': State, x: Subject)
    requires EntryOk(s, x) && s.log <= s'.log && PendingKept(s, s', x)
    requires var key := CacheKey(x);
             && (key in s'.cache <==> key in s.cache) && (key in s'.origin <==> key in s.origin)
             && (key in s.cache ==> s'.cache[key] == s.cache[key])
             && (key in s.origin ==> s'.origin[key] == s.origin[key])
    requires ActiveSchema(s'.templates, x) == ActiveSchema(s.templates, x) || WroteSince(s'.log, x, |s.log|)
    requires forall i | |s.log| <= i < |s'.log| && s'.log[i].Wrote? && s'.log[i].subject == x && !s'.log[i].blind ::
               Pending(s', s'.log[i].w, x)
    ensures EntryOk(s', x)
  {
    var key := CacheKey(x);
    if key in s.cache {
      var o := s.origin[key];
      FaithfulKept(s, s', x, s.cache[key], o.p, o.readAt);
      forall i | o.readAt <= i < |s'.log| && s'.log[i].Wrote? && s'.log[i].subject == x && !s'.log[i].blind
        ensures Pending(s', s'.log[i].w, x) || InvalidatedBetween(s'.log, s'.log[i].w, x, i, o.landedAt)
      {
        if i < |s.log| {
          assert s'.log[i] == s.log[i];
          if !Pending(s, s.log[i].w, x) {
            InvalidatedKept(s.log, s'.log, s.log[i].w, x, i, o.landedAt, o.landedAt);
          }
        }
      }
    }
  }

  lemma PopulatesKept(s: State, s': State, x: Subject)
    requires PopulatesOk(s, x) && s.log <= s'.log
    requires forall p | p in s'.populates :: p in s.populates && s'.populates[p] == s.populates[p]
    requires ActiveSchema(s'.templates, x) == ActiveSchema(s.templates, x) || WroteSince(s'.log, x, |s.log|)
    ensures PopulatesOk(s', x)
  {
    forall p | p in s'.populates && s'.populates[p].subject == x
      ensures Faithful(s', x, s'.populates[p].schema, p, s'.populates[p].readAt)
    {
      FaithfulKept(s, s', x, s.populates[p].schema, p, s.populates[p].readAt);
    }
  }

  lemma InsertOk(s: State, y: Subject, schema: Json, x: Subject)
    requires TableOk(s) && SubjectOk(s, x)
    ensures TableOk(InsertTemplate(s, y, schema)) && SubjectOk(InsertTemplate(s, y, schema), x)
  {
    var s' := InsertTemplate(s, y, schema);
    if ValidIdentifier(y.product) {
      ValidHasNoSlash(y.product, ':');
      SameActive(s.templates, s'.templates, x);
      forall v | v in s'.writers ensures WriterOk(s', s'.writers[v]) { assert WriterOk(s, s.writers[v]); }
    }
    PopulatesKept(s, s', x);
    WritesKept(s, s', x);
    EntryKept(s, s', x);
  }

  lemma ReadOk(s: State, p: nat, y: Subject, x: Subject)
    requires TableOk(s) && SubjectOk(s, x)
    ensures TableOk(ReadTable(s, p, y)) && SubjectOk(ReadTable(s, p, y), x)
  {
    var s' := ReadTable(s, p, y);
    if s' != s {
      ValidHasNoSlash(y.product, ':');
      assert s'.log[|s.log|] == Read(p, y);
      WritesKept(s, s', x);
      EntryKept(s, s', x);
      forall q | q in s'.populates && s'.populates[q].subject == x
        ensures Faithful(s', x, s'.populates[q].schema, q, s'.populates[q].readAt)
      {
        if q != p { FaithfulKept(s, s', x, s.populates[q].schema, q, s.populates[q].readAt); }
      }
    }
  }

  lemma LandOk(s: State, p: nat, x: Subject)
    requires TableOk(s) && SubjectOk(s, x) && ':' !in x.product
    ensures TableOk(LandPopulate(s, p)) && SubjectOk(LandPopulate(s, p), x)
  {
    var s' := LandPopulate(s, p);
    if p in s.populates {
      var pop := s.populates[p];
      assert s'.log[|s.log|] == Landed(p, pop.subject);
      PopulatesKept(s, s', x);
      WritesKept(s, s', x);
      if pop.subject != x {
        if CacheKey(pop.subject) == CacheKey(x) { CacheKeyInjective(pop.subject, x); }
        EntryKept(s, s', x);
      } else {
        FaithfulKept(s, s', x, pop.schema, p, pop.readAt);
        forall i | pop.readAt <= i < |s'.log| && s'.log[i].Wrote? && s'.log[i].subject == x && !s'.log[i].blind
          ensures Pending(s', s'.log[i].w, x) || InvalidatedBetween(s'.log, s'.log[i].w, x, i, |s.log|)
        {
          assert s'.log[i] == s.log[i];
          assert Pending(s, s.log[i].w, x) || InvalidatedBetween(s.log, s.log[i].w, x, i, |s.log|);
          if !Pending(s, s.log[i].w, x) {
            InvalidatedKept(s.log, s'.log, s.log[i].w, x, i, |s.log|, |s.log|);
          }
        }
      }
    }
  }

  lemma FetchOk(s: State, w: nat, id: int, op: Op, x: Subject)
    requires TableOk(s) && SubjectOk(s, x)
    ensures TableOk(FetchTemplate(s, w, id, op)) && SubjectOk(FetchTemplate(s, w, id, op), x)
  {
    var s' := FetchTemplate(s, w, id, op);
    if w !in s.names {
      FetchTableOk(s, w, id, op);
      assert PendingKept(s, s', x);
      PopulatesKept(s, s', x);
      WritesKept(s, s', x);
      EntryKept(s, s', x);
    }
  }

  lemma FetchTableOk(s: State, w: nat, id: int, op: Op)
    requires TableOk(s) && w !in s.names
    ensures TableOk(FetchTemplate(s, w, id, op))
  {
    var s' := FetchTemplate(s, w, id, op);
    forall v | v in s'.writers ensures WriterOk(s', s'.writers[v]) {
      if v != w { assert WriterOk(s, s.writers[v]); }
    }
  }

  lemma ApplyKeepsSubjects(ts: Templates, id: int, op: Op)
    requires Affects(ts, id, op)
    ensures forall i | i in Apply(ts, id, op) :: i in ts && SubjectOf(Apply(ts, id, op)[i]) == SubjectOf(ts[i])
  {
  }

  lemma WriteTableOk(s: State, w: nat)
    requires TableOk(s)
    ensures TableOk(WriteTable(s, w))
  {
    WriteTemplatesOk(s, w);
    WriteWritersOk(s, w);
  }

  predicate Executes(s: State, w: nat) {
    w in s.writers && s.writers[w].Fetched? && Affects(s.templates, s.writers[w].id, s.writers[w].op)
  }

  lemma WriteTemplatesOk(s: State, w: nat)
    requires TemplatesOk(s)
    ensures TemplatesOk(WriteTable(s, w))
  {
    if Executes(s, w) {
      var Fetched(id, op, _) := s.writers[w];
      ApplyLocal(s.templates, id, op, SubjectOf(s.templates[id]));
      ApplyKeepsSubjects(s.templates, id, op);
    }
  }

  lemma WriteWritersOk(s: State, w: nat)
    requires WritersOk(s) && TemplatesOk(s)
    ensures WritersOk(WriteTable(s, w))
  {
    var s' := WriteTable(s, w);
    if Executes(s, w) {
      ApplyKeepsSubjects(s.templates, s.writers[w].id, s.writers[w].op);
      assert WriterOk(s, s.writers[w]);
      forall v | v in s'.writers ensures WriterOk(s', s'.writers[v]) {
        if v != w { assert WriterOk(s, s.writers[v]); }
      }
    } else {
      forall v | v in s'.writers ensures WriterOk(s', s'.writers[v]) { assert WriterOk(s, s.writers[v]); }
    }
  }

  /** In every run a write that is executed changes rows and the schema in force so. */
  lemma WriteInForce(steps: seq<Step>, w: nat)
    requires Executes(Run(Init, steps), w)
    ensures var s := Run(Init, steps);
            var (id, op, s') := (s.writers[w].id, s.writers[w].op, Next(s, Write(w)));
            RowsAfter(s.templates, id, op, s'.templates) && InForceAfter(s.templates, id, op, s'.templates)
  {
    var s := Run(Init, steps);
    TableReachable(steps);
    ApplyRows(s.templates, s.writers[w].id, s.writers[w].op);
    ApplyInForce(s.templates, s.writers[w].id, s.writers[w].op);
  }

  lemma TableReachable(steps: seq<Step>)
    ensures UniqueActive(Run(Init, steps).templates)
  {
    Reachable(steps, Subject("", ""));
  }

  lemma SubjectKept(s: State, s': State, x: Subject)
    requires SubjectOk(s, x) && s.log <= s'.log && PendingKept(s, s', x)
    requires s'.populates == s.populates && s'.cache == s.cache && s'.origin == s.origin
    requires ActiveSchema(s'.templates, x) == ActiveSchema(s.templates, x) || WroteSince(s'.log, x, |s.log|)
    requires forall i | |s.log| <= i < |s'.log| && s'.log[i].Wrote? && s'.log[i].subject == x && !s'.log[i].blind ::
               Pending(s', s'.log[i].w, x)
    ensures SubjectOk(s', x)
  {
    PopulatesKept(s, s', x);
    WritesKept(s, s', x);
    EntryKept(s, s', x);
  }

  lemma WriteOk(s: State, w: nat, x: Subject)
    requires TableOk(s) && SubjectOk(s, x)
    ensures SubjectOk(WriteTable(s, w), x)
  {
    var s' := WriteTable(s, w);
    assert PendingKept(s, s', x);
    if Executes(s, w) {
      var Fetched(id, op, template) := s.writers[w];
      assert WriterOk(s, s.writers[w]);
      var y := SubjectOf(s.templates[id]);
      ApplyLocal(s.templates, id, op, x);
      assert s'.log[|s.log|] == Wrote(w, y, template.None?);
      assert x == y ==> WroteSince(s'.log, x, |s.log|);
      assert template.Some? && x == y ==> Pending(s', w, x);
    }
    SubjectKept(s, s', x);
  }

  lemma InvalidateOk(s: State, w: nat, x: Subject)
    requires TableOk(s) && SubjectOk(s, x) && ':' !in x.product
    ensures TableOk(InvalidateKey(s, w)) && SubjectOk(InvalidateKey(s, w), x)
  {
    var s' := InvalidateKey(s, w);
    if w in s.writers && s.writers[w].Written? {
      var y := s.writers[w].subject;
      assert WriterOk(s, s.writers[w]);
      forall v | v in s'.writers ensures WriterOk(s', s'.writers[v]) { assert WriterOk(s, s.writers[v]); }
      assert s'.log[|s.log|] == Invalidated(w, y);
      PopulatesKept(s, s', x);
      if x != y {
        if CacheKey(x) == CacheKey(y) { CacheKeyInjective(x, y); }
        WritesKept(s, s', x);
        EntryKept(s, s', x);
      } else {
        forall i | 0 <= i < |s'.log| && s'.log[i].Wrote? && s'.log[i].subject == x && !s'.log[i].blind
          ensures Pending(s', s'.log[i].w, x) || InvalidatedBetween(s'.log, s'.log[i].w, x, i, |s'.log|)
        {
          assert s'.log[i] == s.log[i];
          if Pending(s, s.log[i].w, x) {
            assert s.log[i].w != w ==> Pending(s', s.log[i].w, x);
          } else {
            InvalidatedKept(s.log, s'.log, s.log[i].w, x, i, |s.log|, |s'.log|);
          }
        }
      }
    }
  }

  lemma NextOk(s: State, step: Step, x: Subject)
    requires TableOk(s) && SubjectOk(s, x) && ':' !in x.product
    ensures TableOk(Next(s, step)) && SubjectOk(Next(s, step), x)
  {
    match step
    case Insert(y, schema) => InsertOk(s, y, schema, x);
    case Lookup(p, y) => ReadOk(s, p, y, x);
    case Land(p) => LandOk(s, p, x);
    case Fetch(w, id, op) => FetchOk(s, w, id, op, x);
    case Write(w) => WriteTableOk(s, w); WriteOk(s, w, x);
    case Invalidate(w) => InvalidateOk(s, w, x);
  }

  lemma {:induction false} Reachable(steps: seq<Step>, x: Subject)
    requires ':' !in x.product
    ensures TableOk(Run(Init, steps)) && SubjectOk(Run(Init, steps), x)
  {
    if steps != [] {
      Reachable(steps[..|steps| - 1], x);
      NextOk(Run(Init, steps[..|steps| - 1]), steps[|steps| - 1], x);
    }
  }

  // ----- When cache and table agree --------------------------------------------------------

  /** What the cache holds for the subject is the schema in force. */
  ghost predicate Agrees(s: State, x: Subject) {
    CacheKey(x) in s.cache ==> ActiveSchema(s.templates, x) == Some(s.cache[CacheKey(x)])
  }

  /** No admin call is between its write of the subject and its invalidation. */
  ghost predicate Quiescent(s: State, x: Subject) { forall w :: !Pending(s, w, x) }

  /** A populate read the table before a write of the subject, and landed after that
      write's invalidation. */
  ghost predicate LatePopulate(log: seq<Event>, x: Subject, r: nat, w: nat, v: nat, l: nat) {
    && r < w < v < l < |log|
    && log[r].Read? && log[w].Wrote? && log[v].Invalidated? && log[l].Landed?
    && log[r].subject == x && log[w].subject == x && log[v].subject == x && log[l].subject == x
    && log[r].p == log[l].p && log[w].w == log[v].w
  }

  /** An admin call wrote to a template that did not exist yet when it fetched it, and
      so had no key to invalidate. */
  ghost predicate BlindWrite(log: seq<Event>, x: Subject, w: nat) {
    w < |log| && log[w].Wrote? && log[w].blind && log[w].subject == x
  }

  /** In every run, a cached schema that differs from the schema in force while no
      write awaits its invalidation is due to a late populate or a blind write. */
  lemma StaleOnlyIf(steps: seq<Step>, x: Subject)
    requires ':' !in x.product
    requires var s := Run(Init, steps); Quiescent(s, x) && !Agrees(s, x)
    ensures var log := Run(Init, steps).log;
            || (exists r: nat, w: nat, v: nat, l: nat :: LatePopulate(log, x, r, w, v, l))
            || (exists w: nat :: BlindWrite(log, x, w))
  {
    var s := Run(Init, steps);
    Reachable(steps, x);
    var o := s.origin[CacheKey(x)];
    var i :| o.readAt <= i < |s.log| && s.log[i].Wrote? && s.log[i].subject == x;
    if s.log[i].blind {
      assert BlindWrite(s.log, x, i);
    } else {
      assert InvalidatedBetween(s.log, s.log[i].w, x, i, o.landedAt);
      var v :| i < v < o.landedAt && s.log[v] == Invalidated(s.log[i].w, x);
      assert LatePopulate(s.log, x, o.readAt, i, v, o.landedAt);
    }
  }

  // ----- Exactly when agreement lasts --------------------------------------------------------

  /** The cache agrees, and so does every populate of the subject on its way. */
  ghost predicate Settled(s: State, x: Subject) {
    && Agrees(s, x)
    && forall p | p in s.populates && s.populates[p].subject == x ::
         ActiveSchema(s.templates, x) == Some(s.populates[p].schema)
  }

  lemma SettledNext(s: State, step: Step, x: Subject)
    requires TableOk(s) && Settled(s, x) && ':' !in x.product && !step.Write?
    ensures Settled(Next(s, step), x)
  {
    match step
    case Insert(y, schema) => SettledInsert(s, y, schema, x);
    case Lookup(p, y) => assert Settled(ReadTable(s, p, y), x);
    case Land(p) => SettledLand(s, p, x);
    case Fetch(w, id, op) => assert Settled(FetchTemplate(s, w, id, op), x);
    case Invalidate(w) => assert Settled(InvalidateKey(s, w), x);
  }

  lemma SettledInsert(s: State, y: Subject, schema: Json, x: Subject)
    requires TableOk(s) && Settled(s, x)
    ensures Settled(InsertTemplate(s, y, schema), x)
  {
    if ValidIdentifier(y.product) { SameActive(s.templates, InsertTemplate(s, y, schema).templates, x); }
  }

  lemma SettledLand(s: State, p: nat, x: Subject)
    requires TableOk(s) && Settled(s, x) && ':' !in x.product
    ensures Settled(LandPopulate(s, p), x)
  {
    if p in s.populates && CacheKey(s.populates[p].subject) == CacheKey(x) {
      CacheKeyInjective(s.populates[p].subject, x);
    }
  }

  ghost predicate NoWrite(steps: seq<Step>) { forall i | 0 <= i < |steps| :: !steps[i].Write? }

  lemma {:induction false} SettledRun(s: State, more: seq<Step>, x: Subject)
    requires TableOk(s) && SubjectOk(s, x) && Settled(s, x) && ':' !in x.product && NoWrite(more)
    ensures var s' := Run(s, more); TableOk(s') && SubjectOk(s', x) && Settled(s', x)
  {
    if more != [] {
      var before := more[..|more| - 1];
      SettledRun(s, before, x);
      NextOk(Run(s, before), more[|more| - 1], x);
      SettledNext(Run(s, before), more[|more| - 1], x);
    }
  }

  ghost predicate StaysAgreed(s: State, x: Subject) { forall more | NoWrite(more) :: Agrees(Run(s, more), x) }

  /** In every reachable state: until the next template write the cache agrees with the
      table, whatever lookups, landings and invalidations come, exactly when it agrees now
      and every populate on its way carries the schema in force. */
  lemma StaysAgreedIff(steps: seq<Step>, x: Subject)
    requires ':' !in x.product
    ensures StaysAgreed(Run(Init, steps), x) <==> Settled(Run(Init, steps), x)
  {
    var s := Run(Init, steps);
    Reachable(steps, x);
    if Settled(s, x) {
      forall more | NoWrite(more) ensures Agrees(Run(s, more), x) { SettledRun(s, more, x); }
    } else if StaysAgreed(s, x) {
      assert Run(s, []) == s && NoWrite([]);
      var p :| p in s.populates && s.populates[p].subject == x
               && ActiveSchema(s.templates, x) != Some(s.populates[p].schema);
      assert Run(s, [Land(p)]) == LandPopulate(s, p) by { RunSnoc(s, [], Land(p)); }
      assert !Agrees(LandPopulate(s, p), x);
      assert NoWrite([Land(p)]);
      assert false;
    }
  }

  lemma RunSnoc(s: State, steps: seq<Step>, step: Step)
    ensures Run(s, steps + [step]) == Next(Run(s, steps), step)
    ensures [] + [step] == [step]
  {
    assert (steps + [step])[..|steps|] == steps;
  }

  /** An invalidation restores agreement until the next write exactly when no populate on
      its way carries another schema than the one in force. */
  lemma InvalidationRestoresIff(steps: seq<Step>, w: nat, x: Subject)
    requires ':' !in x.product && Pending(Run(Init, steps), w, x)
    ensures var s := Run(Init, steps);
            StaysAgreed(InvalidateKey(s, w), x) <==>
            forall p | p in s.populates && s.populates[p].subject == x ::
              ActiveSchema(s.templates, x) == Some(s.populates[p].schema)
  {
    RunSnoc(Init, steps, Invalidate(w));
    StaysAgreedIff(steps + [Invalidate(w)], x);
  }

  /** A blind activation of another schema leaves the cached one in place, with no
      invalidation to come. */
  lemma BlindActivationStays(s: State, w: nat, x: Subject)
    requires UniqueActive(s.templates) && Executes(s, w)
    requires s.writers[w].template == None && s.writers[w].op == SetStatus(Active)
    requires SubjectOf(s.templates[s.writers[w].id]) == x
    requires CacheKey(x) in s.cache && s.cache[CacheKey(x)] != s.templates[s.writers[w].id].schema
    requires Quiescent(s, x)
    ensures Quiescent(WriteTable(s, w), x) && !Agrees(WriteTable(s, w), x)
  {
    var id, s' := s.writers[w].id, WriteTable(s, w);
    ApplyLocal(s.templates, id, SetStatus(Active), x);
    ActiveSchemaIs(s'.templates, x, id);
    forall v ensures !Pending(s', v, x) { assert !Pending(s, v, x); }
  }

  // ----- Two runs that end stale --------------------------------------------------------------

  const PROPS := Subject("p", "property")
  const OLD := Template("p", "property", Null, Active)
  const NEW := Template("p", "property", Bool(true), Draft)

  /** A template is created, activated and read by a lookup. */
  const ReadSteps: seq<Step> :=
    [Insert(PROPS, Null), Fetch(0, 1, SetStatus(Active)), Write(0), Invalidate(0), Lookup(1, PROPS)]

  const ReadLog: seq<Event> := [Wrote(0, PROPS, false), Invalidated(0, PROPS), Read(1, PROPS)]

  const AfterRead := State(map[1 := OLD], 2, map[], map[1 := Populate(PROPS, Null, 2)], map[], map[], ReadLog, {0, 1})

  lemma {:induction false} RunConcat(s: State, a: seq<Step>, b: seq<Step>)
    ensures Run(s, a + b) == Run(Run(s, a), b)
  {
    if b == [] {
      assert a + b == a;
    } else {
      assert (a + b)[..|a + b| - 1] == a + b[..|b| - 1];
      RunConcat(s, a, b[..|b| - 1]);
    }
  }

  lemma RunTwo(s: State, a: Step, b: Step)
    ensures Run(s, [a, b]) == Next(Next(s, a), b)
  {
    assert [a, b][..1] == [a] && [a][..0] == [];
    assert Run(s, [a]) == Next(Run(s, []), a);
  }

  lemma RunFive(s: State, a: Step, b: Step, c: Step, d: Step, e: Step)
    ensures Run(s, [a, b, c, d, e]) == Next(Next(Next(Next(Next(s, a), b), c), d), e)
  {
    RunTwo(s, a, b);
    assert [a, b, c, d, e][..4] == [a, b, c, d] && [a, b, c, d][..3] == [a, b, c] && [a, b, c][..2] == [a, b];
    assert Run(s, [a, b, c]) == Next(Run(s, [a, b]), c);
    assert Run(s, [a, b, c, d]) == Next(Run(s, [a, b, c]), d);
  }

  lemma ReadRun()
    ensures Run(Init, ReadSteps) == AfterRead
  {
    RunFive(Init, ReadSteps[0], ReadSteps[1], ReadSteps[2], ReadSteps[3], ReadSteps[4]);
    Activation();
    ActiveSchemaIs(Activated.templates, PROPS, 1);
    assert ReadTable(Activated, 1, PROPS) == AfterRead;
  }

  const Activated := Init.(templates := map[1 := OLD], next := 2, log := ReadLog[..2], names := {0})

  lemma Activation()
    ensures Next(Next(Next(Next(Init, ReadSteps[0]), ReadSteps[1]), ReadSteps[2]), ReadSteps[3]) == Activated
  {
    var draft := OLD.(status := Draft);
    var s1 := InsertTemplate(Init, PROPS, Null);
    assert s1 == Init.(templates := map[1 := draft], next := 2);
    var s2 := FetchTemplate(s1, 0, 1, SetStatus(Active));
    assert s2 == s1.(writers := map[0 := Fetched(1, SetStatus(Active), Some(draft))], names := {0});
    var s3 := WriteTable(s2, 0);
    assert Apply(s2.templates, 1, SetStatus(Active)) == map[1 := OLD];
    assert s3 == s2.(templates := map[1 := OLD], writers := map[0 := Written(PROPS)], log := ReadLog[..1]);
    assert InvalidateKey(s3, 0) == Activated;
  }

  /** The template is removed while the populate is on its way. */
  const LateSteps: seq<Step> := [Fetch(2, 1, Remove), Write(2), Invalidate(2), Land(1), Lookup(3, PROPS)]

  const LateLog: seq<Event> := [Wrote(0, PROPS, false), Invalidated(0, PROPS), Read(1, PROPS),
                                Wrote(2, PROPS, false), Invalidated(2, PROPS), Landed(1, PROPS)]

  const AfterLate := State(map[], 2, map["p" := Null], map[], map[], map["p" := Origin(1, 2, 5)], LateLog, {0, 1, 2})

  lemma LateRun()
    ensures Run(Init, ReadSteps + LateSteps) == AfterLate
  {
    RunConcat(Init, ReadSteps, LateSteps);
    ReadRun();
    RunFive(AfterRead, LateSteps[0], LateSteps[1], LateSteps[2], LateSteps[3], LateSteps[4]);
    LateRemoval();
    LateLanding();
  }

  const AfterRemoval :=
    AfterRead.(templates := map[], log := LateLog[..5], names := {0, 1, 2})

  lemma LateRemoval()
    ensures Next(Next(Next(AfterRead, LateSteps[0]), LateSteps[1]), LateSteps[2]) == AfterRemoval
  {
    var s1 := FetchTemplate(AfterRead, 2, 1, Remove);
    assert s1 == AfterRead.(writers := map[2 := Fetched(1, Remove, Some(OLD))], names := {0, 1, 2});
    var s2 := WriteTable(s1, 2);
    assert s2 == s1.(templates := map[], writers := map[2 := Written(PROPS)], log := LateLog[..4]);
    assert InvalidateKey(s2, 2) == AfterRemoval;
  }

  lemma LateLanding()
    ensures Next(Next(AfterRemoval, LateSteps[3]), LateSteps[4]) == AfterLate
  {
    assert LandPopulate(AfterRemoval, 1) == AfterLate;
    assert ActiveSchema(AfterLate.templates, PROPS) == None;
  }

  /** A reachable run that ends quiescent and stale, without a blind write: the populate
      lands after the invalidation, and no schema is in force. */
  lemma LatePopulateHappens()
    ensures var s := Run(Init, ReadSteps + LateSteps);
            && Quiescent(s, PROPS) && !Agrees(s, PROPS)
            && LatePopulate(s.log, PROPS, 2, 3, 4, 5) && !exists w: nat :: BlindWrite(s.log, PROPS, w)
  {
    LateRun();
    assert ActiveSchema(AfterLate.templates, PROPS) == None;
  }

  /** The populate lands; then a call fetches template 2 before it exists, and activates it
      after its creation. */
  const BlindSteps: seq<Step> :=
    [Land(1), Fetch(2, 2, SetStatus(Active)), Insert(PROPS, Bool(true)), Write(2), Invalidate(2)]

  const BlindLog: seq<Event> := [Wrote(0, PROPS, false), Invalidated(0, PROPS), Read(1, PROPS),
                                 Landed(1, PROPS), Wrote(2, PROPS, true)]

  const BlindTable: Templates := map[1 := OLD.(status := Inactive), 2 := NEW.(status := Active)]

  const AfterBlind :=
    State(BlindTable, 3, map["p" := Null], map[], map[], map["p" := Origin(1, 2, 3)], BlindLog, {0, 1, 2})

  lemma BlindRun()
    ensures Run(Init, ReadSteps + BlindSteps) == AfterBlind
  {
    RunConcat(Init, ReadSteps, BlindSteps);
    ReadRun();
    RunFive(AfterRead, BlindSteps[0], BlindSteps[1], BlindSteps[2], BlindSteps[3], BlindSteps[4]);
    BlindPrelude();
    BlindWriting();
  }

  const BeforeBlind := AfterRead.(
    templates := map[1 := OLD, 2 := NEW], next := 3, cache := map["p" := Null], populates := map[],
    writers := map[2 := Fetched(2, SetStatus(Active), None)], origin := map["p" := Origin(1, 2, 3)],
    log := BlindLog[..4], names := {0, 1, 2})

  lemma BlindPrelude()
    ensures Next(Next(Next(AfterRead, BlindSteps[0]), BlindSteps[1]), BlindSteps[2]) == BeforeBlind
  {
    var s1 := LandPopulate(AfterRead, 1);
    assert s1 == AfterRead.(cache := map["p" := Null], populates := map[], origin := map["p" := Origin(1, 2, 3)],
                            log := BlindLog[..4]);
    var s2 := FetchTemplate(s1, 2, 2, SetStatus(Active));
    assert s2 == s1.(writers := map[2 := Fetched(2, SetStatus(Active), None)], names := {0, 1, 2});
    assert InsertTemplate(s2, PROPS, Bool(true)) == BeforeBlind;
  }

  lemma BlindWriting()
    ensures Next(Next(BeforeBlind, BlindSteps[3]), BlindSteps[4]) == AfterBlind
  {
    assert Apply(BeforeBlind.templates, 2, SetStatus(Active)) == BlindTable;
    assert WriteTable(BeforeBlind, 2) == AfterBlind;
  }

  /** A reachable run that ends quiescent and stale without a late populate. */
  lemma BlindWriteHappens()
    ensures var s := Run(Init, ReadSteps + BlindSteps);
            && Quiescent(s, PROPS) && !Agrees(s, PROPS)
            && BlindWrite(s.log, PROPS, 4)
            && !exists r: nat, w: nat, v: nat, l: nat :: LatePopulate(s.log, PROPS, r, w, v, l)
  {
    BlindRun();
    ActiveSchemaIs(BlindTable, PROPS, 2);
  }

  // ----- Reading the table -----------------------------------------------------------------

  method SelectActive(ts: Templates, next: int, x: Subject) returns (schema: Option<Json>)
    requires UniqueActive(ts) && forall id | id in ts :: 1 <= id < next
    ensures schema == ActiveSchema(ts, x)
  {
    var id := 1;
    while id < next
      invariant forall i | i in ts && i < id :: !IsActive(ts[i], x)
    {
      if id in ts && IsActive(ts[id], x) {
        ActiveSchemaIs(ts, x, id);
        return Some(ts[id].schema);
      }
      id := id + 1;
    }
    return None;
  }
}
