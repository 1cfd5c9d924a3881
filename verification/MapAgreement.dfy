/** The cache against the artifacts it speeds up (internal/symbol/symbol.go, internal/store/artifact.go).
    Loading happens outside the lock, so a lookup that misses is three steps - lookup, read, insert -
    with uploads, deletions and other loads in between; and an upload is three steps too. */
module MapAgreement {
  import opened Common
  import opened SourceMaps
  import Blob

  /** Project, release and file of one map. */
  datatype Name = Name(project: int, release: string, file: string)

  type Parser = (string, Bytes) -> bool

  /** A lookup that missed; the entry it will insert, once it has read the store. */
  datatype Load = Load(name: Name, read: Option<Entry>)

  datatype Phase = Started | Stored | Recorded | Forgotten

  /** An upload, with its bytes, or a deletion; and whether this process's cache will be made to
      forget the release. It will not by what goes through another replica, which has a cache of
      its own, nor by the deletion of a whole project. */
  datatype Change =
    | Put(name: Name, data: Bytes, phase: Phase, forgets: bool)
    | Remove(name: Name, phase: Phase, forgets: bool)

  datatype State = State(
    objects: map<string, Bytes>, rows: set<Name>, order: seq<Entry>,
    loads: map<int, Load>, changes: map<int, Change>)

  const EMPTY := State(map[], {}, [], map[], map[])

  datatype Step =
    | Look(t: int, name: Name)                  // a hit is answered; a miss begins a load
    | Read(t: int)                              // row and object are read, outside the lock
    | Fail(t: int)                              // the store is down: nothing is cached
    | Finish(t: int)                            // insert, unless somebody was faster
    | BeginPut(u: int, name: Name, data: Bytes, forgets: bool)
    | BeginRemove(u: int, name: Name, forgets: bool)
    | WriteObject(u: int)                       // upload: the object
    | WriteRow(u: int)                          // upload: the row
    | DropRow(u: int)                           // deletion: the row
    | ForgetRelease(u: int)                     // both: the cached maps of the release
    | DropObjects(u: int, gone: set<string>)    // deletion: some or all objects under the key
    | Abandon(u: int)                           // the change fails at its object or its row, and ends

  function KeyOf(n: Name): string {
    CacheKey(n.project, n.release, n.file)
  }

  function ObjectOf(n: Name): string {
    Blob.ArtifactKey(n.project, n.release, n.file)
  }

  /** What a map with the given bytes answers. */
  function Parsed(n: Name, data: Bytes, parses: Parser): Option<Consumer> {
    if parses(n.file, data) then Some(Consumer(n.file, data)) else None
  }

  /** What a load would find now. */
  function Answer(s: State, n: Name, parses: Parser): Option<Consumer> {
    if n in s.rows && ObjectOf(n) in s.objects then Parsed(n, s.objects[ObjectOf(n)], parses) else None
  }

  function EntryFor(n: Name, answer: Option<Consumer>): Entry {
    Entry(KeyOf(n), answer, if answer.Some? then |answer.value.raw| else MISSING_BYTES)
  }

  predicate Enabled(s: State, step: Step) {
    match step
    case Look(t, name) => t !in s.loads
    case Read(t) => t in s.loads && s.loads[t].read.None?
    case Fail(t) => t in s.loads && s.loads[t].read.None?
    case Finish(t) => t in s.loads && s.loads[t].read.Some?
    case BeginPut(u, name, data, forgets) => u !in s.changes
    case BeginRemove(u, name, forgets) => u !in s.changes
    case WriteObject(u) => u in s.changes && s.changes[u].Put? && s.changes[u].phase == Started
    case WriteRow(u) => u in s.changes && s.changes[u].Put? && s.changes[u].phase == Stored
    case DropRow(u) => u in s.changes && s.changes[u].Remove? && s.changes[u].phase == Started
    case ForgetRelease(u) => u in s.changes && s.changes[u].phase == Recorded
    case DropObjects(u, gone) =>
      u in s.changes && s.changes[u].Remove? && s.changes[u].phase == Forgotten
      && forall k :: k in gone ==> ObjectOf(s.changes[u].name) <= k
    case Abandon(u) => u in s.changes && (s.changes[u].phase == Started || s.changes[u].phase == Stored)
  }

  function Apply(s: State, step: Step, parses: Parser, maxBytes: int): State
    requires Enabled(s, step)
  {
    match step
    case Look(t, name) =>
      var hit := Cached(s.order, KeyOf(name));
      if hit.Some? then s.(order := Touched(s.order, hit.value)) else s.(loads := s.loads[t := Load(name, None)])
    case Read(t) =>
      var l := s.loads[t];
      s.(loads := s.loads[t := l.(read := Some(EntryFor(l.name, Answer(s, l.name, parses))))])
    case Fail(t) => s.(loads := s.loads - {t})
    case Finish(t) =>
      var e := s.loads[t].read.value;
      var there := Cached(s.order, e.key);
      s.(loads := s.loads - {t},
         order := if there.Some? then Touched(s.order, there.value) else Inserted(s.order, e, maxBytes))
    case BeginPut(u, name, data, forgets) => s.(changes := s.changes[u := Put(name, data, Started, forgets)])
    case BeginRemove(u, name, forgets) => s.(changes := s.changes[u := Remove(name, Started, forgets)])
    case WriteObject(u) =>
      var c := s.changes[u];
      s.(objects := s.objects[ObjectOf(c.name) := c.data], changes := s.changes[u := c.(phase := Stored)])
    case WriteRow(u) =>
      var c := s.changes[u];
      s.(rows := s.rows + {c.name}, changes := s.changes[u := c.(phase := Recorded)])
    case DropRow(u) =>
      // without a row the deletion ends here, as an error
      var c := s.changes[u];
      if c.name in s.rows then s.(rows := s.rows - {c.name}, changes := s.changes[u := c.(phase := Recorded)])
      else s.(changes := s.changes - {u})
    case ForgetRelease(u) =>
      var c := s.changes[u];
      s.(order := if c.forgets then WithoutPrefix(s.order, CacheKey(c.name.project, c.name.release, "")) else s.order,
         changes := if c.Put? then s.changes - {u} else s.changes[u := c.(phase := Forgotten)])
    case DropObjects(u, gone) => s.(objects := s.objects - gone, changes := s.changes - {u})
    case Abandon(u) => s.(changes := s.changes - {u})
  }

  /** What a step does to the list is what the cache's methods do. */
  lemma StepsUseTheCache(s: State, step: Step, parses: Parser, maxBytes: int)
    requires Enabled(s, step)
    ensures Apply(s, step, parses, maxBytes).order ==
      match step
      case Look(_, name) => AfterUse(s.order, Asked(KeyOf(name)), maxBytes)
      case Finish(t) => AfterUse(s.order, Loaded(s.loads[t].read.value), maxBytes)
      case ForgetRelease(u) =>
        var c := s.changes[u];
        if c.forgets then AfterUse(s.order, Forgot(CacheKey(c.name.project, c.name.release, "")), maxBytes) else s.order
      case _ => s.order
  {
    hide Cached, Touched, Inserted, WithoutPrefix, CacheKey, Blob.ArtifactKey;
  }

  // ----- Names -----

  predicate SameRelease(m: Name, n: Name) {
    m.project == n.project && m.release == n.release
  }

  /** Names whose keys are their own, with 64-bit projects and no NUL in releases; and no object
      key of one release that begins an object key of another. */
  ghost predicate Separate(names: set<Name>) {
    Sane(names) && forall m, n :: m in names && n in names && Confused(m, n) ==> m.release == n.release
  }

  ghost predicate Sane(names: set<Name>) {
    forall n :: n in names ==> IsInt64(n.project) && NulFree(n.release)
  }

  /** The object key of m begins that of n. */
  predicate Confused(m: Name, n: Name) {
    && m.project == n.project
    && Blob.SafeSegment(m.release) == Blob.SafeSegment(n.release)
    && Blob.SafeSegment(m.file) <= Blob.SafeSegment(n.file)
  }

  lemma ConfusedIsPrefix(m: Name, n: Name)
    ensures Confused(m, n) <==> ObjectOf(m) <= ObjectOf(n)
  {
    hide Blob.ArtifactKey, Blob.SafeSegment;
    Blob.ArtifactKeyPrefixes(m.project, m.release, m.file, n.project, n.release, n.file);
  }

  lemma NamesHaveKeys(names: set<Name>, m: Name, n: Name)
    requires Sane(names) && m in names && n in names
    ensures KeyOf(m) == KeyOf(n) ==> m == n
    ensures Separate(names) && ObjectOf(m) <= ObjectOf(n) ==> SameRelease(m, n)
    ensures CacheKey(m.project, m.release, "") <= KeyOf(n) <==> SameRelease(m, n)
  {
    hide CacheKey, Blob.ArtifactKey, Blob.SafeSegment;
    if KeyOf(m) == KeyOf(n) {
      CacheKeyIsInjective(m.project, m.release, m.file, n.project, n.release, n.file);
    }
    ConfusedIsPrefix(m, n);
    PrefixIsRelease(m.project, m.release, n.project, n.release, n.file);
  }

  // ----- Agreement -----

  /** Change u of the name's release has had an effect and will still forget the release. */
  predicate PendingBy(s: State, u: int, n: Name) {
    && u in s.changes && s.changes[u].forgets && SameRelease(s.changes[u].name, n)
    && (s.changes[u].phase == Stored || s.changes[u].phase == Recorded)
  }

  ghost predicate Pending(s: State, n: Name) {
    exists u :: PendingBy(s, u, n)
  }

  /** A cached answer is what a load would find now, unless the release is about to be forgotten. */
  ghost predicate Agrees(s: State, names: set<Name>, parses: Parser) {
    forall n, e :: n in names && e in s.order && e.key == KeyOf(n) && !Pending(s, n) ==>
      e.consumer == Answer(s, n, parses)
  }

  /** The cache has each key once, and all names come from the given ones. */
  ghost predicate Keyed(s: State, names: set<Name>) {
    && DistinctKeys(s.order)
    && (forall t :: t in s.loads ==> s.loads[t].name in names)
    && (forall t :: t in s.loads && s.loads[t].read.Some? ==> s.loads[t].read.value.key == KeyOf(s.loads[t].name))
    && (forall u :: u in s.changes ==> s.changes[u].name in names)
  }

  predicate Mentions(step: Step, names: set<Name>) {
    match step
    case Look(_, name) => name in names
    case BeginPut(_, name, _, _) => name in names
    case BeginRemove(_, name, _) => name in names
    case _ => true
  }

  /** When a step does no harm: an insert, if somebody was faster, or the release is about to be
      forgotten, or the store still says what was read; a deletion of objects, if no cached map
      goes with them; a failed upload, if what it leaves behind is what is cached; a change that
      will not be forgotten, if it changes no cached answer. */
  ghost predicate Harmless(s: State, step: Step, names: set<Name>, parses: Parser)
    requires Enabled(s, step)
  {
    match step
    case Finish(t) =>
      var n := s.loads[t].name;
      Holds(s.order, KeyOf(n)) || Pending(s, n) || s.loads[t].read.value.consumer == Answer(s, n, parses)
    case WriteObject(u) =>
      var c := s.changes[u];
      c.forgets || forall n, e ::
        n in names && e in s.order && e.key == KeyOf(n) && !Pending(s, n)
        && n in s.rows && ObjectOf(n) == ObjectOf(c.name)
        ==> e.consumer == Parsed(n, c.data, parses)
    case WriteRow(u) =>
      var c := s.changes[u];
      c.forgets || Pending(s, c.name) || ObjectOf(c.name) !in s.objects
      || forall e :: e in s.order && e.key == KeyOf(c.name) ==>
           e.consumer == Parsed(c.name, s.objects[ObjectOf(c.name)], parses)
    case DropRow(u) =>
      var c := s.changes[u];
      c.forgets || Pending(s, c.name) || c.name !in s.rows
      || forall e :: e in s.order && e.key == KeyOf(c.name) ==> e.consumer.None?
    case DropObjects(u, gone) =>
      forall n, e :: n in names && e in s.order && e.key == KeyOf(n) && ObjectOf(n) in gone && !Pending(s, n)
        ==> e.consumer.None?
    case Abandon(u) =>
      var after := s.(changes := s.changes - {u});
      forall n, e :: n in names && e in s.order && e.key == KeyOf(n) && PendingBy(s, u, n) && !Pending(after, n)
        ==> e.consumer == Answer(s, n, parses)
    case _ => true
  }

  lemma TouchedIsSame(order: seq<Entry>, e: Entry)
    requires DistinctKeys(order) && e in order
    ensures DistinctKeys(Touched(order, e)) && forall x :: x in Touched(order, e) <==> x in order
  {
    WithoutSizes(order, e);
  }

  lemma InsertedIsFew(order: seq<Entry>, e: Entry, maxBytes: int)
    requires DistinctKeys(order) && !Holds(order, e.key)
    ensures DistinctKeys(Inserted(order, e, maxBytes)) && e in Inserted(order, e, maxBytes)
    ensures forall x :: x in Inserted(order, e, maxBytes) ==> x == e || x in order
  {
    EvictedIsLongestPrefix([e] + order, maxBytes);
    assert Inserted(order, e, maxBytes)[0] == e;
  }

  /** A step of the change u. */
  predicate StepOf(step: Step, u: int) {
    || step == WriteObject(u) || step == WriteRow(u) || step == DropRow(u) || step == ForgetRelease(u)
    || (step.DropObjects? && step.u == u) || step == Abandon(u)
  }

  lemma OthersGoOn(s: State, step: Step, parses: Parser, maxBytes: int, u: int)
    requires Enabled(s, step) && u in s.changes && StepOf(step, u)
    ensures var after := Apply(s, step, parses, maxBytes);
      && after.changes.Keys <= s.changes.Keys && after.loads == s.loads
      && (forall v :: v in s.changes && v != u ==> v in after.changes && after.changes[v] == s.changes[v])
      && (u in after.changes ==> after.changes[u].name == s.changes[u].name && after.changes[u].phase != Started)
  {
  }

  /** A change of one release leaves the answers for all others alone, and what is pending there. */
  lemma OtherAnswersStay(s: State, step: Step, names: set<Name>, parses: Parser, maxBytes: int, u: int, n: Name)
    requires Separate(names) && u in s.changes && s.changes[u].name in names && n in names && Enabled(s, step)
    requires StepOf(step, u) && !SameRelease(s.changes[u].name, n)
    ensures var after := Apply(s, step, parses, maxBytes);
      Answer(after, n, parses) == Answer(s, n, parses) && (Pending(after, n) <==> Pending(s, n))
  {
    hide CacheKey, Blob.ArtifactKey, Separate, Sane;
    assert Sane(names) by { SeparateIsSane(names); }
    NamesHaveKeys(names, s.changes[u].name, n);
    OthersGoOn(s, step, parses, maxBytes, u);
    var after := Apply(s, step, parses, maxBytes);
    forall v ensures PendingBy(after, v, n) <==> PendingBy(s, v, n) {}
  }

  lemma SeparateIsSane(names: set<Name>)
    requires Separate(names)
    ensures Sane(names)
  {
  }

  /** Whatever a step does to the cache short of an insert. */
  lemma OrderAfter(s: State, step: Step, parses: Parser, maxBytes: int)
    requires Enabled(s, step) && DistinctKeys(s.order)
    ensures var order := Apply(s, step, parses, maxBytes).order;
      && DistinctKeys(order)
      && (step.Finish? && !Holds(s.order, s.loads[step.t].read.value.key) ==>
           && s.loads[step.t].read.value in order
           && forall e :: e in order ==> e in s.order || e == s.loads[step.t].read.value)
      && (!step.Finish? || Holds(s.order, s.loads[step.t].read.value.key) ==> forall e :: e in order ==> e in s.order)
      && (!step.ForgetRelease? && !step.Finish? ==> forall e :: e in s.order ==> e in order)
  {
    hide CacheKey, Blob.ArtifactKey, DistinctKeys, Answer, Touched, Inserted, Holds;
    match step {
      case Look(t, name) =>
        CachedIsHeld(s.order, KeyOf(name));
        if Cached(s.order, KeyOf(name)).Some? {
          TouchedIsSame(s.order, Cached(s.order, KeyOf(name)).value);
        }
      case Finish(t) =>
        var e := s.loads[t].read.value;
        CachedIsHeld(s.order, e.key);
        if Cached(s.order, e.key).Some? {
          TouchedIsSame(s.order, Cached(s.order, e.key).value);
        } else {
          InsertedIsFew(s.order, e, maxBytes);
        }
      case ForgetRelease(u) =>
        WithoutPrefixSizes(s.order, CacheKey(s.changes[u].name.project, s.changes[u].name.release, ""));
      case _ =>
    }
  }

  lemma StepKeepsKeyed(s: State, step: Step, names: set<Name>, parses: Parser, maxBytes: int)
    requires Keyed(s, names) && Enabled(s, step) && Mentions(step, names)
    ensures Keyed(Apply(s, step, parses, maxBytes), names)
  {
    hide CacheKey, Blob.ArtifactKey, DistinctKeys, Answer, Touched, Inserted, Cached, WithoutPrefix;
    OrderAfter(s, step, parses, maxBytes);
  }

  /** Steps that neither change the store nor bring an entry nor end a change. */
  lemma IdleStepAgrees(s: State, step: Step, names: set<Name>, parses: Parser, maxBytes: int)
    requires step.Look? || step.Read? || step.Fail? || step.BeginPut? || step.BeginRemove?
    requires Keyed(s, names) && Agrees(s, names, parses) && Enabled(s, step)
    ensures Agrees(Apply(s, step, parses, maxBytes), names, parses)
  {
    hide KeyOf, ObjectOf, DistinctKeys, Touched, Cached, SameRelease;
    OrderAfter(s, step, parses, maxBytes);
    var after := Apply(s, step, parses, maxBytes);
    forall n ensures Answer(after, n, parses) == Answer(s, n, parses) && (Pending(s, n) ==> Pending(after, n)) {
      forall u | PendingBy(s, u, n) ensures PendingBy(after, u, n) {}
    }
  }

  lemma InsertAgrees(s: State, step: Step, names: set<Name>, parses: Parser, maxBytes: int)
    requires step.Finish? && Sane(names)
    requires Keyed(s, names) && Agrees(s, names, parses) && Enabled(s, step)
    ensures Agrees(Apply(s, step, parses, maxBytes), names, parses) <==> Harmless(s, step, names, parses)
  {
    hide KeyOf, ObjectOf, DistinctKeys, Touched, Inserted, Cached, SameRelease, Sane, Holds;
    OrderAfter(s, step, parses, maxBytes);
    var after := Apply(s, step, parses, maxBytes);
    var e, m := s.loads[step.t].read.value, s.loads[step.t].name;
    forall n ensures Answer(after, n, parses) == Answer(s, n, parses) && (Pending(s, n) <==> Pending(after, n)) {
      forall u ensures PendingBy(s, u, n) <==> PendingBy(after, u, n) {}
    }
    forall n | n in names && KeyOf(n) == e.key ensures n == m { NamesHaveKeys(names, m, n); }
  }

  /** A change whose effects nobody here forgets goes on. */
  lemma ElsewhereAgrees(s: State, step: Step, names: set<Name>, parses: Parser, maxBytes: int)
    requires step.WriteObject? || step.WriteRow? || step.DropRow? || step.ForgetRelease?
    requires Enabled(s, step) && !s.changes[step.u].forgets
    requires Sane(names) && Keyed(s, names) && Agrees(s, names, parses)
    ensures Agrees(Apply(s, step, parses, maxBytes), names, parses) <==> Harmless(s, step, names, parses)
  {
    hide KeyOf, ObjectOf, SameRelease, DistinctKeys, Sane;
    var after, c := Apply(s, step, parses, maxBytes), s.changes[step.u];
    forall n ensures Pending(s, n) <==> Pending(after, n) {
      forall v ensures PendingBy(s, v, n) <==> PendingBy(after, v, n) {}
    }
    forall n | n in names && KeyOf(n) == KeyOf(c.name) ensures n == c.name { NamesHaveKeys(names, c.name, n); }
  }

  /** A change that goes on, or forgets the release. */
  lemma ChangeAgrees(s: State, step: Step, names: set<Name>, parses: Parser, maxBytes: int)
    requires step.WriteObject? || step.WriteRow? || step.DropRow? || step.ForgetRelease?
    requires Separate(names) && Keyed(s, names) && Agrees(s, names, parses) && Enabled(s, step)
    requires s.changes[step.u].forgets
    ensures Agrees(Apply(s, step, parses, maxBytes), names, parses)
  {
    hide CacheKey, Blob.ArtifactKey, DistinctKeys, SameRelease, WithoutPrefix, Separate, Answer;
    var u, c := step.u, s.changes[step.u];
    var after := Apply(s, step, parses, maxBytes);
    OrderAfter(s, step, parses, maxBytes);
    forall n | n in names && !SameRelease(c.name, n)
      ensures Answer(after, n, parses) == Answer(s, n, parses) && (Pending(after, n) <==> Pending(s, n))
    {
      OtherAnswersStay(s, step, names, parses, maxBytes, u, n);
    }
    if step.ForgetRelease? {
      SeparateIsSane(names);
      ForgottenKeysAreGone(s, c, names);
    } else if step.DropRow? && c.name !in s.rows {
      NoRowNoEffect(s, u, names, parses, maxBytes);
    } else {
      forall n | SameRelease(c.name, n) ensures Pending(after, n) { assert PendingBy(after, u, n); }
    }
  }

  lemma NoRowNoEffect(s: State, u: int, names: set<Name>, parses: Parser, maxBytes: int)
    requires Enabled(s, DropRow(u)) && s.changes[u].name !in s.rows && Agrees(s, names, parses)
    ensures Agrees(Apply(s, DropRow(u), parses, maxBytes), names, parses)
  {
    hide KeyOf, ObjectOf, SameRelease;
    var after := Apply(s, DropRow(u), parses, maxBytes);
    forall n ensures Answer(after, n, parses) == Answer(s, n, parses) && (Pending(s, n) ==> Pending(after, n)) {
      forall v | PendingBy(s, v, n) ensures PendingBy(after, v, n) {}
    }
  }

  lemma {:induction false} ForgottenKeysAreGone(s: State, c: Change, names: set<Name>)
    requires Sane(names) && c.name in names
    ensures var left := WithoutPrefix(s.order, CacheKey(c.name.project, c.name.release, ""));
      forall n, e :: n in names && SameRelease(c.name, n) && e in left ==> e.key != KeyOf(n)
  {
    hide CacheKey, Sane;
    forall n | n in names && SameRelease(c.name, n)
      ensures CacheKey(c.name.project, c.name.release, "") <= KeyOf(n)
    {
      NamesHaveKeys(names, c.name, n);
    }
  }

  lemma DropAgrees(s: State, step: Step, names: set<Name>, parses: Parser, maxBytes: int)
    requires step.DropObjects? && Enabled(s, step) && Agrees(s, names, parses)
    ensures Agrees(Apply(s, step, parses, maxBytes), names, parses) <==> Harmless(s, step, names, parses)
  {
    hide KeyOf, ObjectOf, SameRelease;
    var after := Apply(s, step, parses, maxBytes);
    forall n
      ensures Answer(after, n, parses) == if ObjectOf(n) in step.gone then None else Answer(s, n, parses)
      ensures Pending(s, n) <==> Pending(after, n)
    {
      forall v ensures PendingBy(s, v, n) <==> PendingBy(after, v, n) {}
    }
  }

  lemma FailureAgrees(s: State, step: Step, names: set<Name>, parses: Parser, maxBytes: int)
    requires step.Abandon? && Enabled(s, step) && Agrees(s, names, parses)
    ensures Agrees(Apply(s, step, parses, maxBytes), names, parses) <==> Harmless(s, step, names, parses)
  {
    hide KeyOf, ObjectOf, SameRelease;
    var after := Apply(s, step, parses, maxBytes);
    forall n
      ensures Answer(after, n, parses) == Answer(s, n, parses)
      ensures Pending(s, n) <==> Pending(after, n) || PendingBy(s, step.u, n)
    {
      forall v ensures PendingBy(s, v, n) <==> PendingBy(after, v, n) || (v == step.u && PendingBy(s, v, n)) {}
    }
  }

  lemma StoreStepAgrees(s: State, step: Step, names: set<Name>, parses: Parser, maxBytes: int)
    requires step.WriteObject? || step.WriteRow? || step.DropRow? || step.ForgetRelease?
    requires Separate(names) && Keyed(s, names) && Agrees(s, names, parses) && Enabled(s, step)
    ensures Agrees(Apply(s, step, parses, maxBytes), names, parses) <==> Harmless(s, step, names, parses)
  {
    hide Separate, Sane, Keyed, Agrees, Apply;
    SeparateIsSane(names);
    if s.changes[step.u].forgets {
      ChangeAgrees(s, step, names, parses, maxBytes);
    } else {
      ElsewhereAgrees(s, step, names, parses, maxBytes);
    }
  }

  /** What keeps a cached answer right, step by step: a step from agreement leads to agreement if
      and only if it is harmless. */
  lemma StepAgreesExactly(s: State, step: Step, names: set<Name>, parses: Parser, maxBytes: int)
    requires Separate(names) && Keyed(s, names) && Agrees(s, names, parses) && Enabled(s, step) && Mentions(step, names)
    ensures Agrees(Apply(s, step, parses, maxBytes), names, parses) <==> Harmless(s, step, names, parses)
  {
    hide Separate, Sane, Keyed, Agrees, Enabled, Apply, Mentions;
    SeparateIsSane(names);
    if step.Finish? {
      InsertAgrees(s, step, names, parses, maxBytes);
    } else if step.DropObjects? {
      DropAgrees(s, step, names, parses, maxBytes);
    } else if step.Abandon? {
      FailureAgrees(s, step, names, parses, maxBytes);
    } else if step.WriteObject? || step.WriteRow? || step.DropRow? || step.ForgetRelease? {
      StoreStepAgrees(s, step, names, parses, maxBytes);
    } else {
      IdleStepAgrees(s, step, names, parses, maxBytes);
    }
  }

  // ----- Runs -----

  /** The steps can follow each other, however they interleave. */
  predicate Possible(s: State, steps: seq<Step>, parses: Parser, maxBytes: int)
    decreases |steps|
  {
    steps != [] ==>
      Enabled(s, steps[0]) && Possible(Apply(s, steps[0], parses, maxBytes), steps[1..], parses, maxBytes)
  }

  function Run(s: State, steps: seq<Step>, parses: Parser, maxBytes: int): State
    requires Possible(s, steps, parses, maxBytes)
    decreases |steps|
  {
    if steps == [] then s else Run(Apply(s, steps[0], parses, maxBytes), steps[1..], parses, maxBytes)
  }

  predicate AllMention(steps: seq<Step>, names: set<Name>) {
    forall i :: 0 <= i < |steps| ==> Mentions(steps[i], names)
  }

  ghost predicate AllHarmless(s: State, steps: seq<Step>, names: set<Name>, parses: Parser, maxBytes: int)
    requires Possible(s, steps, parses, maxBytes)
    decreases |steps|
  {
    steps != [] ==>
      && Harmless(s, steps[0], names, parses)
      && AllHarmless(Apply(s, steps[0], parses, maxBytes), steps[1..], names, parses, maxBytes)
  }

  /** Cache and store agree at every moment of the run. */
  ghost predicate AgreesThroughout(s: State, steps: seq<Step>, names: set<Name>, parses: Parser, maxBytes: int)
    requires Possible(s, steps, parses, maxBytes)
    decreases |steps|
  {
    && Agrees(s, names, parses)
    && (steps != [] ==> AgreesThroughout(Apply(s, steps[0], parses, maxBytes), steps[1..], names, parses, maxBytes))
  }

  /** The cache agrees with the store throughout a run, with any number of loads, uploads and
      deletions at once, if and only if each of its steps is harmless when it is taken. */
  lemma {:induction false} AgreementIsExact(s: State, steps: seq<Step>, names: set<Name>, parses: Parser, maxBytes: int)
    requires Separate(names) && Keyed(s, names) && Agrees(s, names, parses)
    requires Possible(s, steps, parses, maxBytes) && AllMention(steps, names)
    ensures AgreesThroughout(s, steps, names, parses, maxBytes) <==> AllHarmless(s, steps, names, parses, maxBytes)
    decreases |steps|
  {
    hide Separate, Keyed, Enabled, Apply, Mentions, Agrees, Harmless;
    if steps != [] {
      var next := Apply(s, steps[0], parses, maxBytes);
      StepAgreesExactly(s, steps[0], names, parses, maxBytes);
      StepKeepsKeyed(s, steps[0], names, parses, maxBytes);
      if Agrees(next, names, parses) {
        AgreementIsExact(next, steps[1..], names, parses, maxBytes);
      } else {
        DisagreesAtOnce(next, steps[1..], names, parses, maxBytes);
      }
    }
  }

  lemma DisagreesAtOnce(s: State, steps: seq<Step>, names: set<Name>, parses: Parser, maxBytes: int)
    requires Possible(s, steps, parses, maxBytes) && !Agrees(s, names, parses)
    ensures !AgreesThroughout(s, steps, names, parses, maxBytes)
  {
  }

  // ----- Keeping loads and changes apart -----

  /** No change of the name's release is half done. */
  predicate Quiet(s: State, n: Name) {
    forall u :: u in s.changes && SameRelease(s.changes[u].name, n) ==> s.changes[u].phase == Started
  }

  /** A load holds what it has read of a release while an upload to it or a deletion from it is
      between its first effect and its last. */
  ghost predicate Overlap(s: State) {
    exists t :: t in s.loads && s.loads[t].read.Some? && !Quiet(s, s.loads[t].name)
  }

  /** A step that no forgetting makes good. */
  predicate Unforgotten(s: State, step: Step)
    requires Enabled(s, step)
  {
    || step.Abandon?
    || ((step.WriteObject? || step.WriteRow? || step.DropRow? || step.DropObjects?) && !s.changes[step.u].forgets)
  }

  /** A run in which that never happens, and uploads that fail and changes that nobody here forgets
      do no harm. */
  ghost predicate Orderly(s: State, steps: seq<Step>, names: set<Name>, parses: Parser, maxBytes: int)
    requires Possible(s, steps, parses, maxBytes)
    decreases |steps|
  {
    && !Overlap(s)
    && (steps != [] ==>
         && Mentions(steps[0], names)
         && (Unforgotten(s, steps[0]) ==> Harmless(s, steps[0], names, parses))
         && Orderly(Apply(s, steps[0], parses, maxBytes), steps[1..], names, parses, maxBytes))
  }

  /** What was read is still what the store says, and a release that was forgotten stays so until
      its objects are gone. */
  ghost predicate Fresh(s: State, names: set<Name>, parses: Parser) {
    && (forall t :: t in s.loads && s.loads[t].read.Some? ==>
         s.loads[t].read.value.consumer == Answer(s, s.loads[t].name, parses))
    && (forall u, n, e :: u in s.changes && s.changes[u].phase == Forgotten && n in names && e in s.order ==>
         s.changes[u].forgets && SameRelease(s.changes[u].name, n) ==> e.key != KeyOf(n))
  }

  ghost predicate Sound(s: State, names: set<Name>, parses: Parser) {
    Keyed(s, names) && Agrees(s, names, parses) && Fresh(s, names, parses)
  }

  lemma ApartIsHarmless(s: State, step: Step, names: set<Name>, parses: Parser)
    requires Separate(names) && Keyed(s, names) && Fresh(s, names, parses) && !Overlap(s) && Enabled(s, step)
    requires !Unforgotten(s, step)
    ensures Harmless(s, step, names, parses)
  {
    hide CacheKey, Blob.ArtifactKey, DistinctKeys, Answer, Separate, Holds;
    if step.DropObjects? {
      SeparateIsSane(names);
      var c := s.changes[step.u];
      forall n | n in names && ObjectOf(n) in step.gone ensures SameRelease(c.name, n) {
        NamesHaveKeys(names, c.name, n);
      }
    }
  }

  lemma LoadStepIsFresh(s: State, step: Step, names: set<Name>, parses: Parser, maxBytes: int)
    requires step.Look? || step.Read? || step.Fail? || step.Finish? || step.BeginPut? || step.BeginRemove?
    requires Sane(names) && Keyed(s, names) && Fresh(s, names, parses) && Enabled(s, step) && !Overlap(s)
    ensures Fresh(Apply(s, step, parses, maxBytes), names, parses)
  {
    hide KeyOf, ObjectOf, DistinctKeys, Touched, Inserted, Cached, SameRelease, Sane, Holds;
    OrderAfter(s, step, parses, maxBytes);
    var after := Apply(s, step, parses, maxBytes);
    assert forall n :: Answer(after, n, parses) == Answer(s, n, parses);
    if step.Finish? {
      var m := s.loads[step.t].name;
      assert Quiet(s, m);
      forall n | n in names && KeyOf(n) == KeyOf(m) ensures n == m { NamesHaveKeys(names, m, n); }
    }
  }

  lemma ChangeStepIsFresh(s: State, step: Step, names: set<Name>, parses: Parser, maxBytes: int, u: int)
    requires StepOf(step, u) && u in s.changes
    requires Separate(names) && Keyed(s, names) && Fresh(s, names, parses) && Enabled(s, step)
    requires !Overlap(s) && !Overlap(Apply(s, step, parses, maxBytes))
    ensures Fresh(Apply(s, step, parses, maxBytes), names, parses)
  {
    hide CacheKey, Blob.ArtifactKey, DistinctKeys, SameRelease, WithoutPrefix, Separate, Answer;
    var c, after := s.changes[u], Apply(s, step, parses, maxBytes);
    OrderAfter(s, step, parses, maxBytes);
    OthersGoOn(s, step, parses, maxBytes, u);
    forall t | t in s.loads && s.loads[t].read.Some?
      ensures Answer(after, s.loads[t].name, parses) == Answer(s, s.loads[t].name, parses)
    {
      if SameRelease(c.name, s.loads[t].name) {
        assert Quiet(s, s.loads[t].name) && Quiet(after, s.loads[t].name);
        QuietStepsAnswerAlike(s, step, parses, maxBytes, u, s.loads[t].name);
      } else {
        OtherAnswersStay(s, step, names, parses, maxBytes, u, s.loads[t].name);
      }
    }
    if step.ForgetRelease? {
      SeparateIsSane(names);
      ForgottenKeysAreGone(s, c, names);
    }
  }

  lemma QuietStepsAnswerAlike(s: State, step: Step, parses: Parser, maxBytes: int, u: int, n: Name)
    requires StepOf(step, u) && u in s.changes && Enabled(s, step) && SameRelease(s.changes[u].name, n)
    requires Quiet(s, n) && Quiet(Apply(s, step, parses, maxBytes), n)
    ensures Answer(Apply(s, step, parses, maxBytes), n, parses) == Answer(s, n, parses)
  {
    hide KeyOf, ObjectOf, WithoutPrefix;
    var after := Apply(s, step, parses, maxBytes);
    if u in after.changes {
      OthersGoOn(s, step, parses, maxBytes, u);
    }
  }

  lemma StepIsSound(s: State, step: Step, names: set<Name>, parses: Parser, maxBytes: int)
    requires Separate(names) && Sound(s, names, parses) && Enabled(s, step) && Mentions(step, names)
    requires !Overlap(s) && !Overlap(Apply(s, step, parses, maxBytes))
    requires Unforgotten(s, step) ==> Harmless(s, step, names, parses)
    ensures Sound(Apply(s, step, parses, maxBytes), names, parses)
  {
    hide Separate, Sane, Keyed, Agrees, Fresh, Apply, Mentions, Overlap, Harmless;
    SeparateIsSane(names);
    if !Unforgotten(s, step) {
      ApartIsHarmless(s, step, names, parses);
    }
    StepAgreesExactly(s, step, names, parses, maxBytes);
    StepKeepsKeyed(s, step, names, parses, maxBytes);
    if step.Look? || step.Read? || step.Fail? || step.Finish? || step.BeginPut? || step.BeginRemove? {
      LoadStepIsFresh(s, step, names, parses, maxBytes);
    } else {
      ChangeStepIsFresh(s, step, names, parses, maxBytes, step.u);
    }
  }

  /** Keeping loads and changes of one release apart is enough: in every run in which no load
      holds a read across a step of an upload or deletion, a cached answer is what reading the
      store would give, a missing map and one that will not parse included. */
  lemma {:induction false} CacheAgrees(s: State, steps: seq<Step>, names: set<Name>, parses: Parser, maxBytes: int)
    requires Separate(names) && Sound(s, names, parses)
    requires Possible(s, steps, parses, maxBytes) && Orderly(s, steps, names, parses, maxBytes)
    ensures AgreesThroughout(s, steps, names, parses, maxBytes)
    ensures Agrees(Run(s, steps, parses, maxBytes), names, parses)
    decreases |steps|
  {
    hide Sound, Separate, Enabled, Apply, Mentions, Overlap, Agrees, Harmless, Unforgotten;
    SoundAgrees(s, names, parses);
    if steps != [] {
      StepIsSound(s, steps[0], names, parses, maxBytes) by {
        assert Orderly(Apply(s, steps[0], parses, maxBytes), steps[1..], names, parses, maxBytes);
      }
      CacheAgrees(Apply(s, steps[0], parses, maxBytes), steps[1..], names, parses, maxBytes);
    }
  }

  lemma SoundAgrees(s: State, names: set<Name>, parses: Parser)
    requires Sound(s, names, parses)
    ensures Agrees(s, names, parses)
  {
  }

  lemma CacheAgreesFromNothing(steps: seq<Step>, names: set<Name>, parses: Parser, maxBytes: int)
    requires Separate(names)
    requires Possible(EMPTY, steps, parses, maxBytes) && Orderly(EMPTY, steps, names, parses, maxBytes)
    ensures Agrees(Run(EMPTY, steps, parses, maxBytes), names, parses)
  {
    CacheAgrees(EMPTY, steps, names, parses, maxBytes);
  }

  // ----- Every run -----

  /** What the lock's holders leave behind. */
  predicate Bounded(order: seq<Entry>, maxBytes: int) {
    DistinctKeys(order) && (InBounds(order, maxBytes) || |order| <= 1)
  }

  lemma TouchingKeepsBounds(order: seq<Entry>, e: Entry, maxBytes: int)
    requires Bounded(order, maxBytes) && e in order
    ensures Bounded(Touched(order, e), maxBytes)
  {
    hide SizeOf, Without;
    WithoutSizes(order, e);
    SizeOfCons(e, Without(order, e.key));
    TouchedIsSame(order, e);
  }

  lemma StepKeepsBounds(s: State, step: Step, parses: Parser, maxBytes: int)
    requires Enabled(s, step) && Bounded(s.order, maxBytes)
    ensures Bounded(Apply(s, step, parses, maxBytes).order, maxBytes)
  {
    hide CacheKey, Blob.ArtifactKey, Answer, SizeOf;
    match step {
      case Look(t, name) =>
        CachedIsHeld(s.order, KeyOf(name));
        if Cached(s.order, KeyOf(name)).Some? {
          TouchingKeepsBounds(s.order, Cached(s.order, KeyOf(name)).value, maxBytes);
        }
      case Finish(t) =>
        var e := s.loads[t].read.value;
        CachedIsHeld(s.order, e.key);
        if Cached(s.order, e.key).Some? {
          TouchingKeepsBounds(s.order, Cached(s.order, e.key).value, maxBytes);
        } else {
          InsertedIsFew(s.order, e, maxBytes);
          EvictedIsLongestPrefix([e] + s.order, maxBytes);
          assert Evicted([e] + s.order, maxBytes) == ([e] + s.order)[..|Evicted([e] + s.order, maxBytes)|];
        }
      case ForgetRelease(u) =>
        WithoutPrefixSizes(s.order, CacheKey(s.changes[u].name.project, s.changes[u].name.release, ""));
      case _ =>
    }
  }

  /** However loads race each other and whatever is forgotten in between, the cache holds each key
      once and stays within its bounds, or down to a single entry. */
  lemma {:induction false} CacheStaysBounded(s: State, steps: seq<Step>, parses: Parser, maxBytes: int)
    requires Possible(s, steps, parses, maxBytes) && Bounded(s.order, maxBytes)
    ensures Bounded(Run(s, steps, parses, maxBytes).order, maxBytes)
    decreases |steps|
  {
    hide Enabled, Apply, Bounded;
    if steps != [] {
      StepKeepsBounds(s, steps[0], parses, maxBytes);
      CacheStaysBounded(Apply(s, steps[0], parses, maxBytes), steps[1..], parses, maxBytes);
    }
  }

  // ----- What breaks it -----

  /** An upload of a file, run through without interruption. */
  function Uploaded(s: State, n: Name, data: Bytes): State {
    s.(objects := s.objects[ObjectOf(n) := data], rows := s.rows + {n},
       order := WithoutPrefix(s.order, CacheKey(n.project, n.release, "")))
  }

  lemma UploadRuns(s: State, u: int, n: Name, data: Bytes, parses: Parser, maxBytes: int)
    requires u !in s.changes
    ensures var s1 := Apply(s, BeginPut(u, n, data, true), parses, maxBytes);
      && Enabled(s1, WriteObject(u))
      && var s2 := Apply(s1, WriteObject(u), parses, maxBytes);
        && Enabled(s2, WriteRow(u)) && Enabled(s2, Abandon(u))
        && Apply(s2, Abandon(u), parses, maxBytes) == s.(objects := s.objects[ObjectOf(n) := data])
        && var s3 := Apply(s2, WriteRow(u), parses, maxBytes);
          && Enabled(s3, ForgetRelease(u))
          && Apply(s3, ForgetRelease(u), parses, maxBytes) == Uploaded(s, n, data)
  {
    hide CacheKey, Blob.ArtifactKey, WithoutPrefix;
    var begun := s.changes[u := Put(n, data, Started, true)][u := Put(n, data, Stored, true)];
    assert begun - {u} == s.changes && begun[u := Put(n, data, Recorded, true)] - {u} == s.changes;
  }

  /** An upload whose row cannot be written has replaced the object and forgets nothing: a right
      answer cached for m stays right exactly if m has no row, or another object, or the new bytes
      answer what the old ones did. */
  lemma FailedUploadGoesStale(s: State, m: Name, n: Name, e: Entry, data: Bytes, parses: Parser)
    requires e in s.order && e.key == KeyOf(m) && e.consumer == Answer(s, m, parses)
    ensures var failed := s.(objects := s.objects[ObjectOf(n) := data]);
      && e in failed.order
      && (e.consumer == Answer(failed, m, parses) <==>
           m !in s.rows || ObjectOf(m) != ObjectOf(n) || e.consumer == Parsed(m, data, parses))
  {
    hide CacheKey, Blob.ArtifactKey;
  }

  /** A load that has read the store before an upload and inserts after it: the cached answer is
      right exactly if what was read is what the uploaded bytes answer. */
  lemma LoadAcrossForgetIsStale(s: State, t: int, n: Name, data: Bytes, parses: Parser, maxBytes: int)
    requires t in s.loads && s.loads[t].name == n && s.loads[t].read.Some? && s.loads[t].read.value.key == KeyOf(n)
    requires DistinctKeys(s.order) && IsInt64(n.project) && NulFree(n.release)
    ensures var up := Uploaded(s, n, data);
      && Enabled(up, Finish(t))
      && var done := Apply(up, Finish(t), parses, maxBytes);
        && Cached(done.order, KeyOf(n)) == Some(s.loads[t].read.value)
        && (s.loads[t].read.value.consumer == Answer(done, n, parses) <==>
             s.loads[t].read.value.consumer == Parsed(n, data, parses))
  {
    hide CacheKey, Blob.ArtifactKey, DistinctKeys;
    var up := Uploaded(s, n, data);
    var e := s.loads[t].read.value;
    CachedIsHeld(up.order, e.key);
    PrefixIsRelease(n.project, n.release, n.project, n.release, n.file);
    WithoutPrefixSizes(s.order, CacheKey(n.project, n.release, ""));
    InsertedIsFew(up.order, e, maxBytes);
    var done := Apply(up, Finish(t), parses, maxBytes);
    CachedIsOnly(done.order, e);
  }

  /** One upload after another, with two releases: the object of m is replaced if the key of n is
      the same, but a cached answer for m is not forgotten. */
  lemma ConfusedReleasesGoStale(s: State, m: Name, n: Name, e: Entry, data: Bytes, parses: Parser)
    requires e in s.order && e.key == KeyOf(m) && e.consumer == Answer(s, m, parses)
    requires !SameRelease(m, n) && Sane({m, n})
    ensures var up := Uploaded(s, n, data);
      && e in up.order
      && (e.consumer == Answer(up, m, parses) <==>
           m !in s.rows || ObjectOf(m) != ObjectOf(n) || e.consumer == Parsed(m, data, parses))
  {
    hide CacheKey, Blob.ArtifactKey;
    assert m in {m, n} && n in {m, n};
    PrefixIsRelease(n.project, n.release, m.project, m.release, m.file);
  }

  // ----- Runs that go wrong -----

  /** The steps are possible and orderly, and lead from s to z. */
  ghost predicate Leads(s: State, steps: seq<Step>, z: State, names: set<Name>, parses: Parser, maxBytes: int) {
    && Possible(s, steps, parses, maxBytes) && Orderly(s, steps, names, parses, maxBytes)
    && Run(s, steps, parses, maxBytes) == z
  }

  lemma LeadsNowhere(s: State, names: set<Name>, parses: Parser, maxBytes: int)
    requires !Overlap(s)
    ensures Leads(s, [], s, names, parses, maxBytes)
  {
  }

  lemma LeadsOn(s: State, step: Step, steps: seq<Step>, z: State, names: set<Name>, parses: Parser, maxBytes: int)
    requires !Overlap(s) && Enabled(s, step) && Mentions(step, names) && !Unforgotten(s, step)
    requires Leads(Apply(s, step, parses, maxBytes), steps, z, names, parses, maxBytes)
    ensures Leads(s, [step] + steps, z, names, parses, maxBytes)
  {
    hide Apply, Enabled, Overlap, Mentions, Harmless, Unforgotten;
    assert ([step] + steps)[1..] == steps;
  }

  lemma {:induction false} LeadsFurther(
      s: State, steps: seq<Step>, y: State, more: seq<Step>, z: State,
      names: set<Name>, parses: Parser, maxBytes: int)
    requires Leads(s, steps, y, names, parses, maxBytes) && Leads(y, more, z, names, parses, maxBytes)
    ensures Leads(s, steps + more, z, names, parses, maxBytes)
    decreases |steps|
  {
    hide Apply, Enabled, Overlap, Mentions, Harmless;
    if steps == [] {
      assert steps + more == more;
    } else {
      LeadsFurther(Apply(s, steps[0], parses, maxBytes), steps[1..], y, more, z, names, parses, maxBytes);
      assert (steps + more)[1..] == steps[1..] + more;
    }
  }

  predicate Idle(s: State) {
    s.loads == map[] && s.changes == map[]
  }

  /** An upload to an idle store. */
  lemma UploadLeads(s: State, n: Name, data: Bytes, names: set<Name>, parses: Parser, maxBytes: int)
    returns (steps: seq<Step>)
    requires Idle(s) && n in names
    ensures Leads(s, steps, Uploaded(s, n, data), names, parses, maxBytes)
  {
    hide CacheKey, Blob.ArtifactKey, WithoutPrefix, Leads;
    UploadRuns(s, 0, n, data, parses, maxBytes);
    var s1 := Apply(s, BeginPut(0, n, data, true), parses, maxBytes);
    var s2 := Apply(s1, WriteObject(0), parses, maxBytes);
    var s3 := Apply(s2, WriteRow(0), parses, maxBytes);
    var z := Uploaded(s, n, data);
    LeadsNowhere(z, names, parses, maxBytes);
    LeadsOn(s3, ForgetRelease(0), [], z, names, parses, maxBytes);
    steps := [ForgetRelease(0)] + [];
    LeadsOn(s2, WriteRow(0), steps, z, names, parses, maxBytes);
    steps := [WriteRow(0)] + steps;
    LeadsOn(s1, WriteObject(0), steps, z, names, parses, maxBytes);
    steps := [WriteObject(0)] + steps;
    LeadsOn(s, BeginPut(0, n, data, true), steps, z, names, parses, maxBytes);
    steps := [BeginPut(0, n, data, true)] + steps;
  }

  /** A load from an idle store of what is not cached. */
  lemma LoadLeads(s: State, n: Name, names: set<Name>, parses: Parser, maxBytes: int)
    returns (steps: seq<Step>)
    requires Idle(s) && n in names && !Holds(s.order, KeyOf(n))
    ensures var e := EntryFor(n, Answer(s, n, parses));
      Leads(s, steps, s.(order := Inserted(s.order, e, maxBytes)), names, parses, maxBytes)
  {
    hide CacheKey, Blob.ArtifactKey, Leads, Inserted;
    CachedIsHeld(s.order, KeyOf(n));
    var s1 := Apply(s, Look(0, n), parses, maxBytes);
    var s2 := Apply(s1, Read(0), parses, maxBytes);
    var z := Apply(s2, Finish(0), parses, maxBytes);
    assert map[0 := s2.loads[0]] - {0} == map[];
    assert z == s.(order := Inserted(s.order, EntryFor(n, Answer(s, n, parses)), maxBytes));
    LeadsNowhere(z, names, parses, maxBytes);
    LeadsOn(s2, Finish(0), [], z, names, parses, maxBytes);
    steps := [Finish(0)] + [];
    LeadsOn(s1, Read(0), steps, z, names, parses, maxBytes);
    steps := [Read(0)] + steps;
    LeadsOn(s, Look(0, n), steps, z, names, parses, maxBytes);
    steps := [Look(0, n)] + steps;
  }

  function Removed(s: State, n: Name, gone: set<string>): State {
    s.(rows := s.rows - {n}, objects := s.objects - gone,
       order := WithoutPrefix(s.order, CacheKey(n.project, n.release, "")))
  }

  /** A deletion from an idle store. */
  lemma RemovalLeads(s: State, n: Name, gone: set<string>, names: set<Name>, parses: Parser, maxBytes: int)
    returns (steps: seq<Step>)
    requires Idle(s) && n in names && n in s.rows && forall k :: k in gone ==> ObjectOf(n) <= k
    ensures Leads(s, steps, Removed(s, n, gone), names, parses, maxBytes)
  {
    hide CacheKey, Blob.ArtifactKey, WithoutPrefix, Leads;
    var s1 := Apply(s, BeginRemove(0, n, true), parses, maxBytes);
    var s2 := Apply(s1, DropRow(0), parses, maxBytes);
    var s3 := Apply(s2, ForgetRelease(0), parses, maxBytes);
    var z := Apply(s3, DropObjects(0, gone), parses, maxBytes);
    assert z == Removed(s, n, gone);
    LeadsNowhere(z, names, parses, maxBytes);
    LeadsOn(s3, DropObjects(0, gone), [], z, names, parses, maxBytes);
    steps := [DropObjects(0, gone)] + [];
    LeadsOn(s2, ForgetRelease(0), steps, z, names, parses, maxBytes);
    steps := [ForgetRelease(0)] + steps;
    LeadsOn(s1, DropRow(0), steps, z, names, parses, maxBytes);
    steps := [DropRow(0)] + steps;
    LeadsOn(s, BeginRemove(0, n, true), steps, z, names, parses, maxBytes);
    steps := [BeginRemove(0, n, true)] + steps;
  }

  /** Two releases of which one's object key begins the other's: n and m are uploaded, m is
      loaded, n is deleted, all one after the other; and m's object is gone with it while its map
      stays cached. */
  lemma ConfusedRunGoesStale(m: Name, n: Name, data: Bytes, names: set<Name>, parses: Parser, maxBytes: int)
    returns (steps: seq<Step>)
    requires Sane(names) && m in names && n in names && Confused(n, m) && n.release != m.release
    requires parses(m.file, data)
    ensures Possible(EMPTY, steps, parses, maxBytes) && Orderly(EMPTY, steps, names, parses, maxBytes)
    ensures !Agrees(Run(EMPTY, steps, parses, maxBytes), names, parses)
  {
    hide CacheKey, Blob.ArtifactKey, Confused, Sane, Leads, Inserted, WithoutPrefix;
    ConfusedIsPrefix(n, m);
    var s1 := Uploaded(EMPTY, n, data);
    var s2 := Uploaded(s1, m, data);
    var e := EntryFor(m, Answer(s2, m, parses));
    assert s1.order == [] && s2.order == [] by { NothingToForget(n); NothingToForget(m); }
    InsertedIsFew([], e, maxBytes);
    var s3 := s2.(order := Inserted(s2.order, e, maxBytes));
    var s4 := Removed(s3, n, {ObjectOf(m)});
    var a := UploadLeads(EMPTY, n, data, names, parses, maxBytes);
    var b := UploadLeads(s1, m, data, names, parses, maxBytes);
    var c := LoadLeads(s2, m, names, parses, maxBytes);
    var d := RemovalLeads(s3, n, {ObjectOf(m)}, names, parses, maxBytes);
    LeadsFurther(EMPTY, a, s1, b, s2, names, parses, maxBytes);
    LeadsFurther(EMPTY, a + b, s2, c, s3, names, parses, maxBytes);
    LeadsFurther(EMPTY, a + b + c, s3, d, s4, names, parses, maxBytes);
    steps := a + b + c + d;
    NamesHaveKeys(names, n, m);
    assert e in s4.order by { StaysCached(s3.order, CacheKey(n.project, n.release, ""), e); }
    assert !Pending(s4, m) && Answer(s4, m, parses) == None;
    assert Possible(EMPTY, steps, parses, maxBytes) && Orderly(EMPTY, steps, names, parses, maxBytes)
      && Run(EMPTY, steps, parses, maxBytes) == s4 by { LeadsMeans(EMPTY, steps, s4, names, parses, maxBytes); }
  }

  lemma LeadsMeans(s: State, steps: seq<Step>, z: State, names: set<Name>, parses: Parser, maxBytes: int)
    requires Leads(s, steps, z, names, parses, maxBytes)
    ensures Possible(s, steps, parses, maxBytes) && Orderly(s, steps, names, parses, maxBytes)
    ensures Run(s, steps, parses, maxBytes) == z
  {
  }

  lemma NothingToForget(n: Name)
    ensures WithoutPrefix([], CacheKey(n.project, n.release, "")) == []
  {
  }

  lemma StaysCached(order: seq<Entry>, prefix: string, e: Entry)
    requires e in order && !(prefix <= e.key)
    ensures e in WithoutPrefix(order, prefix)
  {
  }

  /** On names that are sane otherwise, and maps that can parse, separateness is exactly what makes
      every orderly run agree. */
  lemma SeparateIsExact(names: set<Name>, parses: Parser, maxBytes: int)
    requires Sane(names) && forall n :: n in names ==> exists data :: parses(n.file, data)
    ensures Separate(names) <==>
      forall steps :: Possible(EMPTY, steps, parses, maxBytes) && Orderly(EMPTY, steps, names, parses, maxBytes)
        ==> Agrees(Run(EMPTY, steps, parses, maxBytes), names, parses)
  {
    hide Agrees, Orderly, Possible, Run, Confused;
    if Separate(names) {
      forall steps | Possible(EMPTY, steps, parses, maxBytes) && Orderly(EMPTY, steps, names, parses, maxBytes)
        ensures Agrees(Run(EMPTY, steps, parses, maxBytes), names, parses)
      {
        CacheAgreesFromNothing(steps, names, parses, maxBytes);
      }
    } else {
      var n, m :| n in names && m in names && Confused(n, m) && n.release != m.release;
      var data :| parses(m.file, data);
      var steps := ConfusedRunGoesStale(m, n, data, names, parses, maxBytes);
    }
  }

  /** A run from empty stores that ends at rest with a wrong answer: a load finds no map, the map
      is uploaded, and the load caches that there is none. */
  lemma StaleFromNothing(n: Name, data: Bytes, parses: Parser, maxBytes: int) returns (steps: seq<Step>)
    requires Sane({n}) && parses(n.file, data)
    ensures Possible(EMPTY, steps, parses, maxBytes)
    ensures var z := Run(EMPTY, steps, parses, maxBytes);
      Idle(z) && Quiet(z, n) && !Agrees(z, {n}, parses)
  {
    hide CacheKey, Blob.ArtifactKey, WithoutPrefix, Inserted;
    var s1 := Apply(EMPTY, Look(0, n), parses, maxBytes);
    var s2 := Apply(s1, Read(0), parses, maxBytes);
    UploadRuns(s2, 0, n, data, parses, maxBytes);
    var s3 := Apply(s2, BeginPut(0, n, data, true), parses, maxBytes);
    var s4 := Apply(s3, WriteObject(0), parses, maxBytes);
    var s5 := Apply(s4, WriteRow(0), parses, maxBytes);
    var s6 := Uploaded(s2, n, data);
    var e := EntryFor(n, None);
    NothingToForget(n);
    InsertedIsFew([], e, maxBytes);
    var z := Apply(s6, Finish(0), parses, maxBytes);
    assert e in z.order && Idle(z) && !Pending(z, n) && n in {n} && Answer(z, n, parses).Some?;
    steps := [];
    PossibleOn(s6, Finish(0), steps, parses, maxBytes);
    steps := [Finish(0)] + steps;
    PossibleOn(s5, ForgetRelease(0), steps, parses, maxBytes);
    steps := [ForgetRelease(0)] + steps;
    PossibleOn(s4, WriteRow(0), steps, parses, maxBytes);
    steps := [WriteRow(0)] + steps;
    PossibleOn(s3, WriteObject(0), steps, parses, maxBytes);
    steps := [WriteObject(0)] + steps;
    PossibleOn(s2, BeginPut(0, n, data, true), steps, parses, maxBytes);
    steps := [BeginPut(0, n, data, true)] + steps;
    PossibleOn(s1, Read(0), steps, parses, maxBytes);
    steps := [Read(0)] + steps;
    PossibleOn(EMPTY, Look(0, n), steps, parses, maxBytes);
    steps := [Look(0, n)] + steps;
  }

  lemma PossibleOn(s: State, step: Step, steps: seq<Step>, parses: Parser, maxBytes: int)
    requires Enabled(s, step) && Possible(Apply(s, step, parses, maxBytes), steps, parses, maxBytes)
    ensures Possible(s, [step] + steps, parses, maxBytes)
    ensures Run(s, [step] + steps, parses, maxBytes) == Run(Apply(s, step, parses, maxBytes), steps, parses, maxBytes)
  {
    hide Apply, Enabled;
    assert ([step] + steps)[1..] == steps;
  }

  /** A right answer cached for m, after an upload through another replica: it stays right exactly if
      the object is another, or m has no row, not even the new one, or the bytes answer the same. */
  lemma UploadElsewhereGoesStale(s: State, m: Name, n: Name, e: Entry, data: Bytes, parses: Parser)
    requires e in s.order && e.key == KeyOf(m) && e.consumer == Answer(s, m, parses)
    ensures var after := s.(objects := s.objects[ObjectOf(n) := data], rows := s.rows + {n});
      && e in after.order
      && (e.consumer == Answer(after, m, parses) <==>
           ObjectOf(m) != ObjectOf(n) || (m !in s.rows && m != n) || e.consumer == Parsed(m, data, parses))
  {
    hide CacheKey, Blob.ArtifactKey;
  }

  /** What may follow an upload and a load without being forgotten. */
  datatype Ending = FailedUpload(data: Bytes) | UploadElsewhere(data: Bytes) | ProjectDeleted

  function StepsOf(n: Name, ending: Ending): seq<Step> {
    match ending
    case FailedUpload(data) => [BeginPut(0, n, data, true), WriteObject(0), Abandon(0)]
    case UploadElsewhere(data) => [BeginPut(0, n, data, false), WriteObject(0), WriteRow(0), ForgetRelease(0)]
    case ProjectDeleted => [BeginRemove(0, n, false), DropRow(0), ForgetRelease(0), DropObjects(0, {ObjectOf(n)})]
  }

  function StoreAfter(s: State, n: Name, ending: Ending): State {
    match ending
    case FailedUpload(data) => s.(objects := s.objects[ObjectOf(n) := data])
    case UploadElsewhere(data) => s.(objects := s.objects[ObjectOf(n) := data], rows := s.rows + {n})
    case ProjectDeleted => s.(objects := s.objects - {ObjectOf(n)}, rows := s.rows - {n})
  }

  /** The steps are possible and lead from s to z. */
  ghost predicate Reaches(s: State, steps: seq<Step>, z: State, parses: Parser, maxBytes: int) {
    Possible(s, steps, parses, maxBytes) && Run(s, steps, parses, maxBytes) == z
  }

  lemma ReachesNext(s: State, step: Step, steps: seq<Step>, z: State, parses: Parser, maxBytes: int)
    requires Enabled(s, step) && steps != [] && steps[0] == step
    requires Reaches(Apply(s, step, parses, maxBytes), steps[1..], z, parses, maxBytes)
    ensures Reaches(s, steps, z, parses, maxBytes)
  {
    hide Apply, Enabled;
  }

  lemma {:induction false} ReachesFurther(
      s: State, steps: seq<Step>, y: State, more: seq<Step>, z: State, parses: Parser, maxBytes: int)
    requires Reaches(s, steps, y, parses, maxBytes) && Reaches(y, more, z, parses, maxBytes)
    ensures Reaches(s, steps + more, z, parses, maxBytes)
    decreases |steps|
  {
    hide Apply, Enabled;
    if steps == [] {
      assert steps + more == more;
    } else {
      ReachesFurther(Apply(s, steps[0], parses, maxBytes), steps[1..], y, more, z, parses, maxBytes);
      assert (steps + more)[1..] == steps[1..] + more;
    }
  }

  lemma FourSteps(s: State, steps: seq<Step>, s1: State, s2: State, s3: State, z: State, parses: Parser, maxBytes: int)
    requires |steps| == 4
    requires Enabled(s, steps[0]) && s1 == Apply(s, steps[0], parses, maxBytes)
    requires Enabled(s1, steps[1]) && s2 == Apply(s1, steps[1], parses, maxBytes)
    requires Enabled(s2, steps[2]) && s3 == Apply(s2, steps[2], parses, maxBytes)
    requires Enabled(s3, steps[3]) && z == Apply(s3, steps[3], parses, maxBytes)
    ensures Reaches(s, steps, z, parses, maxBytes)
  {
    hide Apply, Enabled;
    ThreeSteps(s1, steps[1..], s2, s3, z, parses, maxBytes);
    ReachesNext(s, steps[0], steps, z, parses, maxBytes);
  }

  lemma ThreeSteps(s: State, steps: seq<Step>, s1: State, s2: State, z: State, parses: Parser, maxBytes: int)
    requires |steps| == 3
    requires Enabled(s, steps[0]) && s1 == Apply(s, steps[0], parses, maxBytes)
    requires Enabled(s1, steps[1]) && s2 == Apply(s1, steps[1], parses, maxBytes)
    requires Enabled(s2, steps[2]) && z == Apply(s2, steps[2], parses, maxBytes)
    ensures Reaches(s, steps, z, parses, maxBytes)
  {
    hide Apply, Enabled;
    var one, two := steps[1..], steps[1..][1..];
    assert one[0] == steps[1] && two[0] == steps[2] && two[1..] == [];
    assert Reaches(z, [], z, parses, maxBytes);
    ReachesNext(s2, two[0], two, z, parses, maxBytes);
    ReachesNext(s1, one[0], one, z, parses, maxBytes);
    ReachesNext(s, steps[0], steps, z, parses, maxBytes);
  }

  lemma EndingRuns(s: State, n: Name, ending: Ending, parses: Parser, maxBytes: int)
    requires Idle(s) && n in s.rows
    ensures Reaches(s, StepsOf(n, ending), StoreAfter(s, n, ending), parses, maxBytes)
  {
    hide Reaches, StepsOf, StoreAfter;
    match ending {
      case FailedUpload(data) => FailedUploadRuns(s, n, data, parses, maxBytes);
      case UploadElsewhere(data) => UploadElsewhereRuns(s, n, data, parses, maxBytes);
      case ProjectDeleted => ProjectDeletionRuns(s, n, parses, maxBytes);
    }
  }

  lemma FailedUploadRuns(s: State, n: Name, data: Bytes, parses: Parser, maxBytes: int)
    requires Idle(s)
    ensures Reaches(s, StepsOf(n, FailedUpload(data)), StoreAfter(s, n, FailedUpload(data)), parses, maxBytes)
  {
    hide CacheKey, Blob.ArtifactKey, WithoutPrefix, Reaches, Answer;
    var steps, z := StepsOf(n, FailedUpload(data)), StoreAfter(s, n, FailedUpload(data));
    var s1 := Apply(s, steps[0], parses, maxBytes);
    var s2 := Apply(s1, steps[1], parses, maxBytes);
    assert s2.changes == map[0 := Put(n, data, Stored, true)];
    assert z == Apply(s2, steps[2], parses, maxBytes);
    ThreeSteps(s, steps, s1, s2, z, parses, maxBytes);
  }

  lemma UploadElsewhereRuns(s: State, n: Name, data: Bytes, parses: Parser, maxBytes: int)
    requires Idle(s)
    ensures Reaches(s, StepsOf(n, UploadElsewhere(data)), StoreAfter(s, n, UploadElsewhere(data)), parses, maxBytes)
  {
    hide CacheKey, Blob.ArtifactKey, WithoutPrefix, Reaches, Answer;
    var steps, z := StepsOf(n, UploadElsewhere(data)), StoreAfter(s, n, UploadElsewhere(data));
    var s1 := Apply(s, steps[0], parses, maxBytes);
    var s2 := Apply(s1, steps[1], parses, maxBytes);
    var s3 := Apply(s2, steps[2], parses, maxBytes);
    assert s3.changes == map[0 := Put(n, data, Recorded, false)];
    assert z == Apply(s3, steps[3], parses, maxBytes);
    FourSteps(s, steps, s1, s2, s3, z, parses, maxBytes);
  }

  lemma ProjectDeletionRuns(s: State, n: Name, parses: Parser, maxBytes: int)
    requires Idle(s) && n in s.rows
    ensures Reaches(s, StepsOf(n, ProjectDeleted), StoreAfter(s, n, ProjectDeleted), parses, maxBytes)
  {
    hide CacheKey, Blob.ArtifactKey, WithoutPrefix, Reaches, Answer;
    var steps, z := StepsOf(n, ProjectDeleted), StoreAfter(s, n, ProjectDeleted);
    var s1 := Apply(s, steps[0], parses, maxBytes);
    var s2 := Apply(s1, steps[1], parses, maxBytes);
    var s3 := Apply(s2, steps[2], parses, maxBytes);
    assert s3.changes == map[0 := Remove(n, Forgotten, false)];
    assert z == Apply(s3, steps[3], parses, maxBytes);
    FourSteps(s, steps, s1, s2, s3, z, parses, maxBytes);
  }

  function AnswerAfter(n: Name, ending: Ending, parses: Parser): Option<Consumer> {
    if ending.ProjectDeleted? then None else Parsed(n, ending.data, parses)
  }

  /** Three runs from empty stores, with nothing at the same time: a map is uploaded and loaded; then
      another upload fails at its row, or goes through another replica, or the project is deleted.
      The cached answer is right in the end exactly if the new answer is the old one. */
  lemma UnforgottenRunGoesStale(n: Name, data: Bytes, ending: Ending, parses: Parser, maxBytes: int)
    returns (steps: seq<Step>)
    requires Sane({n})
    ensures Possible(EMPTY, steps, parses, maxBytes) && Idle(Run(EMPTY, steps, parses, maxBytes))
    ensures Agrees(Run(EMPTY, steps, parses, maxBytes), {n}, parses) <==>
      Parsed(n, data, parses) == AnswerAfter(n, ending, parses)
  {
    hide CacheKey, Blob.ArtifactKey, Leads, Inserted, WithoutPrefix, Possible, Run, StepsOf;
    var s1 := Uploaded(EMPTY, n, data);
    var e := EntryFor(n, Answer(s1, n, parses));
    assert s1.order == [] by { NothingToForget(n); }
    InsertedIsFew([], e, maxBytes);
    var s2 := s1.(order := Inserted(s1.order, e, maxBytes));
    var z := StoreAfter(s2, n, ending);
    var a := UploadLeads(EMPTY, n, data, {n}, parses, maxBytes);
    var b := LoadLeads(s1, n, {n}, parses, maxBytes);
    LeadsFurther(EMPTY, a, s1, b, s2, {n}, parses, maxBytes);
    LeadsMeans(EMPTY, a + b, s2, {n}, parses, maxBytes);
    EndingRuns(s2, n, ending, parses, maxBytes);
    ReachesFurther(EMPTY, a + b, s2, StepsOf(n, ending), z, parses, maxBytes);
    steps := a + b + StepsOf(n, ending);
    assert n in {n} && !Pending(z, n) && e in z.order;
    assert e.consumer == Parsed(n, data, parses) && Answer(z, n, parses) == AnswerAfter(n, ending, parses);
  }
}
