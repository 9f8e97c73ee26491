/**
 * The declaration closure a catalog fence carries (`scripts/gen-config-catalog.ts`): the work queue
 * that pastes package-local declarations, records external references, and checks that one bare
 * name never stands for two things.
 */
module PasteClosure {
  import opened Prelude

  type FileId = string

  datatype Import = FromFile(file: FileId, imported: string) | NotTs | External(specifier: string, imported: string)

  /** A parsed file: for each type declaration the type names it refers to, and the import map. */
  datatype Source = Source(decls: map<string, seq<string>>, imports: map<string, Import>)

  type Files = map<FileId, Source>

  /** A bare name as written in a file. */
  type Place = (FileId, string)

  datatype Resolution =
    | Local(file: FileId)
    | Ref(specifier: string, imported: string)
    | Unresolved
    | Throws

  /**
   * `resolveTypeName`. It recurses along relative imports with no guard; coming back to a file of
   * the same chain it would recurse for ever, which ends as a thrown range error.
   */
  function ResolveFrom(files: Files, f: FileId, name: string, chain: set<FileId>): (r: Resolution)
    ensures r.Local? ==> r.file in files && name in files[r.file].decls
    decreases files.Keys - chain
  {
    if f !in files || f in chain then Throws
    else if name in files[f].decls then Local(f)
    else if name !in files[f].imports then Unresolved
    else match files[f].imports[name]
      case NotTs => Unresolved
      case External(spec, imported) => Ref(spec, imported)
      case FromFile(g, imported) =>
        if imported != name then Unresolved else ResolveFrom(files, g, name, chain + {f})
  }

  function Resolve(files: Files, p: Place): (r: Resolution)
    ensures r.Local? ==> r.file in files && p.1 in files[r.file].decls
  {
    ResolveFrom(files, p.0, p.1, {})
  }

  /** One unguarded hop of `resolveTypeName`, when it has one. */
  function Hop(files: Files, f: FileId, name: string): Option<FileId> {
    if f in files && name !in files[f].decls && name in files[f].imports &&
       files[f].imports[name].FromFile? && files[f].imports[name].imported == name
    then Some(files[f].imports[name].file) else None
  }

  function After(files: Files, f: FileId, name: string, n: nat): Option<FileId>
    decreases n
  {
    if n == 0 then Some(f)
    else match Hop(files, f, name)
      case None => None
      case Some(g) => After(files, g, name, n - 1)
  }

  /** The names a pasted declaration brings in: everything it refers to that is not a global. */
  function NamesIn(files: Files, globals: set<string>, f: FileId, name: string): set<Place> {
    if f in files && name in files[f].decls
    then set n | n in files[f].decls[name] && n !in globals :: (f, n) else {}
  }

  function Successors(files: Files, globals: set<string>, p: Place): (s: set<Place>) {
    var r := Resolve(files, p);
    if r.Local? then NamesIn(files, globals, r.file, p.1) else {}
  }

  ghost predicate Reaches(files: Files, globals: set<string>, p: Place, q: Place, n: nat)
    decreases n
  {
    if n == 0 then p == q
    else exists m :: m in Successors(files, globals, p) && Reaches(files, globals, m, q, n - 1)
  }

  lemma {:induction false} ReachesOneMore(files: Files, globals: set<string>, p: Place, m: Place, q: Place, n: nat)
    requires Reaches(files, globals, p, m, n) && q in Successors(files, globals, m)
    ensures Reaches(files, globals, p, q, n + 1)
    decreases n
  {
    if n == 0 {
      assert Reaches(files, globals, q, q, 0);
    } else {
      var k :| k in Successors(files, globals, p) && Reaches(files, globals, k, m, n - 1);
      ReachesOneMore(files, globals, k, m, q, n - 1);
    }
  }

  ghost predicate Reached(files: Files, globals: set<string>, root: Place, q: Place) {
    exists n :: Reaches(files, globals, root, q, n)
  }

  lemma {:induction false} ClosedContains(
    files: Files, globals: set<string>, places: set<Place>, p: Place, q: Place, n: nat)
    requires forall a | a in places :: Successors(files, globals, a) <= places
    requires p in places && Reaches(files, globals, p, q, n)
    ensures q in places
    decreases n
  {
    if n > 0 {
      var m :| m in Successors(files, globals, p) && Reaches(files, globals, m, q, n - 1);
      ClosedContains(files, globals, places, m, q, n - 1);
    }
  }

  /**
   * What the queue loop is about, with resolution as a function value: the places reached from the
   * root, what a name means in a file, and the names a declaration brings in.
   */
  datatype Task = Task(
    root: Place,
    reach: iset<Place>,
    meaning: Place -> Resolution,
    names: (FileId, string) -> set<Place>)

  datatype Fence = Fence(pastes: seq<Place>, refs: map<string, Resolution>)

  ghost function TaskOf(files: Files, globals: set<string>, root: Place): Task {
    Task(root, (iset q | Reached(files, globals, root, q)), q => Resolve(files, q),
         (f, n) => NamesIn(files, globals, f, n))
  }

  /** The fence can be written: the config type is local and every reached name has one meaning. */
  ghost predicate Unambiguous(t: Task) {
    && t.meaning(t.root).Local?
    && (forall q | q in t.reach :: t.meaning(q).Local? || t.meaning(q).Ref?)
    && (forall q, r | q in t.reach && r in t.reach && q.1 == r.1 :: t.meaning(q) == t.meaning(r))
  }

  /** Each name at most once, each meaning what every file that reached it means by it. */
  ghost predicate ClosedFence(t: Task, fence: Fence) {
    && |fence.pastes| > 0 && fence.pastes[0].1 == t.root.1
    && (forall i, j | 0 <= i < j < |fence.pastes| :: fence.pastes[i].1 != fence.pastes[j].1)
    && (forall p | p in fence.pastes :: p.1 !in fence.refs)
    && (forall q | q in t.reach ::
          match t.meaning(q)
          case Local(f) => (f, q.1) in fence.pastes
          case Ref(_, _) => q.1 in fence.refs && fence.refs[q.1] == t.meaning(q)
          case _ => false)
    && (forall p | p in fence.pastes :: Meant(t, p.1, Local(p.0)))
    && (forall n | n in fence.refs :: Meant(t, n, fence.refs[n]))
  }

  /** Some file that reached the name means this by it. */
  ghost predicate Meant(t: Task, n: string, r: Resolution) {
    exists q :: q in t.reach && q.1 == n && t.meaning(q) == r
  }

  datatype Outcome = Thrown | Done(fence: Fence, violations: seq<Place>)

  /** The variables of the queue loop. */
  datatype State = State(
    pastes: seq<Place>,
    refs: map<string, Resolution>,
    pastedDeclByName: map<string, FileId>,
    queue: seq<Place>,
    violations: seq<Place>)

  /** What the tables say, whatever is on the queue. */
  ghost predicate Tables(t: Task, st: State) {
    && PastedOnce(st)
    && st.pastedDeclByName.Keys !! st.refs.Keys && t.root.1 !in st.refs
    && (forall n | n in st.pastedDeclByName :: Meant(t, n, Local(st.pastedDeclByName[n])))
    && (forall n | n in st.refs :: st.refs[n].Ref? && Meant(t, n, st.refs[n]))
  }

  /** The table of pasted names is that of the pastes, one for each name. */
  ghost predicate PastedOnce(st: State) {
    && (forall n | n in st.pastedDeclByName :: (st.pastedDeclByName[n], n) in st.pastes)
    && (forall p | p in st.pastes :: p.1 in st.pastedDeclByName && st.pastedDeclByName[p.1] == p.0)
    && (forall i, j | 0 <= i < j < |st.pastes| :: st.pastes[i].1 != st.pastes[j].1)
  }

  /** A handled place is in the fence. */
  ghost predicate Settled(t: Task, st: State, p: Place) {
    match t.meaning(p)
    case Local(f) => p.1 in st.pastedDeclByName && st.pastedDeclByName[p.1] == f
    case Ref(_, _) => p.1 in st.refs && st.refs[p.1] == t.meaning(p)
    case _ => false
  }

  /** The fence already has something else under the name, or the place has no meaning a fence could carry. */
  ghost predicate Blocked(t: Task, st: State, p: Place) {
    match t.meaning(p)
    case Local(f) => p.1 in st.refs || (p.1 in st.pastedDeclByName && st.pastedDeclByName[p.1] != f)
    case Ref(_, _) =>
      p.1 == t.root.1 || p.1 in st.pastedDeclByName || (p.1 in st.refs && st.refs[p.1] != t.meaning(p))
    case Unresolved => true
    case Throws => false
  }

  /** Some pasted declaration refers to it. */
  ghost predicate BroughtIn(t: Task, st: State, p: Place) {
    exists n :: n in st.pastedDeclByName && p in t.names(st.pastedDeclByName[n], n)
  }

  /** Every item taken off is in the fence, or has been complained about. */
  ghost predicate Judged(t: Task, st: State, handled: set<Place>) {
    && (forall p | p in st.violations :: p in handled)
    && (forall p | p in handled :: if p in st.violations then Blocked(t, st, p) else Settled(t, st, p))
  }

  /** The tables have only grown. */
  ghost predicate Grown(st: State, st': State) {
    && (forall n | n in st.pastedDeclByName ::
          n in st'.pastedDeclByName && st'.pastedDeclByName[n] == st.pastedDeclByName[n])
    && (forall n | n in st.refs :: n in st'.refs && st'.refs[n] == st.refs[n])
  }

  lemma JudgedOneMore(t: Task, st: State, st': State, handled: set<Place>, item: Place)
    requires Judged(t, st, handled) && Grown(st, st') && Tables(t, st')
    requires || (st'.violations == st.violations + [item] && Blocked(t, st', item))
             || (st'.violations == st.violations && Settled(t, st', item))
    ensures Judged(t, st', handled + {item})
  {
    hide Tables;
    forall p | p in handled + {item}
      ensures if p in st'.violations then Blocked(t, st', p) else Settled(t, st', p)
    {
      NotBoth(t, st', item);
      if p in handled { StillJudged(t, st, st', p); }
    }
  }

  lemma NotBoth(t: Task, st: State, p: Place)
    requires Tables(t, st)
    ensures !(Settled(t, st, p) && Blocked(t, st, p))
  {
  }

  lemma StillJudged(t: Task, st: State, st': State, p: Place)
    requires Grown(st, st')
    ensures Settled(t, st, p) ==> Settled(t, st', p)
    ensures Blocked(t, st, p) ==> Blocked(t, st', p)
  {
  }

  ghost predicate Live(st: State, handled: set<Place>, p: Place) {
    p in handled || p in st.queue
  }

  ghost predicate ReachClosed(t: Task) {
    && t.root in t.reach
    && forall q, p | q in t.reach && t.meaning(q).Local? && p in t.names(t.meaning(q).file, q.1) :: p in t.reach
  }

  /** The invariant of the queue loop; `handled` holds the items taken off so far. */
  ghost predicate Valid(t: Task, st: State, handled: set<Place>) {
    && (t.root in handled || (st.queue == [t.root] && st.pastes == [] && st.refs == map[] && st.violations == []))
    && (forall p | Live(st, handled, p) :: p in t.reach)
    && Tables(t, st)
    && (forall n, p | n in st.pastedDeclByName && p in t.names(st.pastedDeclByName[n], n) :: Live(st, handled, p))
    && (forall p | Live(st, handled, p) :: p == t.root || BroughtIn(t, st, p))
    && Judged(t, st, handled)
    && (st.violations != [] ==> !Unambiguous(t))
    && (st.violations == [] && t.root in handled ==> |st.pastes| > 0 && st.pastes[0].1 == t.root.1)
  }

  lemma Dequeued(st: State, st': State, handled: set<Place>)
    requires st.queue != [] && st.queue[1..] <= st'.queue
    ensures st.queue[0] in st.queue
    ensures forall p | Live(st, handled, p) :: Live(st', handled + {st.queue[0]}, p)
    ensures st'.queue == st.queue[1..] ==>
              forall p | Live(st', handled + {st.queue[0]}, p) :: Live(st, handled, p)
  {
    assert st.queue == [st.queue[0]] + st.queue[1..];
    assert st'.queue == st.queue[1..] + st'.queue[|st.queue| - 1..];
  }

  /** A complaint is justified when the name has a second meaning. */
  lemma Clash(t: Task, item: Place, r: Resolution)
    requires item in t.reach && Meant(t, item.1, r) && t.meaning(item) != r
    ensures !Unambiguous(t)
  {
  }

  /** What is known about the item at the head of the queue. */
  lemma OnQueue(t: Task, st: State, handled: set<Place>)
    requires Valid(t, st, handled) && st.queue != []
    ensures var item := st.queue[0];
            && item in t.reach
            && (item.1 in st.pastedDeclByName ==>
                  item.1 !in st.refs && Meant(t, item.1, Local(st.pastedDeclByName[item.1])))
            && (item.1 in st.refs ==> st.refs[item.1].Ref? && Meant(t, item.1, st.refs[item.1]))
  {
    assert Live(st, handled, st.queue[0]);
  }

  /** An unresolved name, or the config type itself reached as an import, has no place in a fence. */
  lemma NoMeaning(t: Task, item: Place)
    requires item in t.reach && t.root in t.reach
    requires t.meaning(item).Unresolved? || (t.meaning(item).Ref? && item.1 == t.root.1)
    ensures !Unambiguous(t)
  {
  }

  lemma Complain(t: Task, st: State, st': State, handled: set<Place>, item: Place)
    requires Valid(t, st, handled) && st.queue != [] && st.queue[0] == item
    requires st' == st.(queue := st.queue[1..], violations := st.violations + [item])
    requires !Unambiguous(t) && Blocked(t, st, item)
    ensures Valid(t, st', handled + {item})
  {
    hide Unambiguous, Meant, Judged;
    Dequeued(st, st', handled);
    assert Tables(t, st');
    JudgedOneMore(t, st, st', handled, item);
    hide Tables, Blocked;
    SameBroughtIn(t, st, st');
  }

  lemma SameBroughtIn(t: Task, st: State, st': State)
    requires st'.pastedDeclByName == st.pastedDeclByName
    ensures forall p :: BroughtIn(t, st', p) <==> BroughtIn(t, st, p)
  {
  }

  lemma Keep(t: Task, st: State, st': State, handled: set<Place>, item: Place)
    requires Valid(t, st, handled) && st.queue != [] && st.queue[0] == item
    requires t.meaning(item).Local? && st' == st.(queue := st.queue[1..]) && Settled(t, st, item)
    ensures Valid(t, st', handled + {item})
  {
    hide Unambiguous, Meant, Judged;
    Dequeued(st, st', handled);
    assert Tables(t, st');
    JudgedOneMore(t, st, st', handled, item);
    hide Tables, Blocked;
    SameBroughtIn(t, st, st');
  }

  lemma RecordRef(t: Task, st: State, st': State, handled: set<Place>, item: Place, r: Resolution)
    requires Valid(t, st, handled) && st.queue != [] && st.queue[0] == item
    requires r == t.meaning(item) && r.Ref? && item.1 != t.root.1
    requires item.1 !in st.pastedDeclByName && (item.1 in st.refs ==> st.refs[item.1] == r)
    requires st' == st.(queue := st.queue[1..], refs := st.refs[item.1 := r])
    ensures Valid(t, st', handled + {item})
  {
    hide Unambiguous, PastedOnce, Meant, Tables, Judged;
    Dequeued(st, st', handled);
    assert Live(st, handled, item);
    RecordTables(t, st, st', item, r);
    JudgedOneMore(t, st, st', handled, item);
    SameBroughtIn(t, st, st');
  }

  lemma RecordTables(t: Task, st: State, st': State, item: Place, r: Resolution)
    requires Tables(t, st) && item in t.reach && r == t.meaning(item) && r.Ref? && item.1 != t.root.1
    requires item.1 !in st.pastedDeclByName
    requires st'.pastes == st.pastes && st'.pastedDeclByName == st.pastedDeclByName
    requires st'.refs == st.refs[item.1 := r]
    ensures Tables(t, st')
  {
    assert Meant(t, item.1, r);
    hide Meant;
    assert PastedOnce(st');
  }

  lemma Paste(t: Task, st: State, st': State, handled: set<Place>, item: Place, f: FileId, names: seq<Place>)
    requires ReachClosed(t)
    requires Valid(t, st, handled) && st.queue != [] && st.queue[0] == item
    requires t.meaning(item) == Local(f)
    requires item.1 !in st.pastedDeclByName && item.1 !in st.refs
    requires forall p :: p in names <==> p in t.names(f, item.1)
    requires st' == st.(queue := st.queue[1..] + names, pastes := st.pastes + [(f, item.1)],
                        pastedDeclByName := st.pastedDeclByName[item.1 := f])
    ensures Valid(t, st', handled + {item})
  {
    hide Tables, Judged, Unambiguous;
    Dequeued(st, st', handled);
    assert Live(st, handled, item);
    assert Meant(t, item.1, Local(f));
    PasteTables(t, st, st', item, f);
    PasteReach(t, st, st', handled, item, names);
    JudgedOneMore(t, st, st', handled, item);
    PasteBringsIn(t, st, st', handled, item, f, names);
    forall n, p | n in st'.pastedDeclByName && p in t.names(st'.pastedDeclByName[n], n)
      ensures Live(st', handled + {item}, p)
    {
      if n == item.1 { assert p in names; } else { assert Live(st, handled, p); }
    }
  }

  lemma PasteBringsIn(t: Task, st: State, st': State, handled: set<Place>, item: Place, f: FileId, names: seq<Place>)
    requires st.queue != [] && st.queue[0] == item && st'.queue == st.queue[1..] + names
    requires item.1 !in st.pastedDeclByName && st'.pastedDeclByName == st.pastedDeclByName[item.1 := f]
    requires forall p | Live(st, handled, p) :: p == t.root || BroughtIn(t, st, p)
    requires forall p :: p in names <==> p in t.names(f, item.1)
    ensures forall p | Live(st', handled + {item}, p) :: p == t.root || BroughtIn(t, st', p)
  {
    forall p | Live(st', handled + {item}, p) && p != t.root ensures BroughtIn(t, st', p) {
      if p in names {
        assert item.1 in st'.pastedDeclByName;
      } else {
        assert Live(st, handled, p);
        var n :| n in st.pastedDeclByName && p in t.names(st.pastedDeclByName[n], n);
        assert n in st'.pastedDeclByName && st'.pastedDeclByName[n] == st.pastedDeclByName[n];
      }
    }
  }

  lemma PasteReach(t: Task, st: State, st': State, handled: set<Place>, item: Place, names: seq<Place>)
    requires st.queue != [] && st.queue[0] == item && st'.queue == st.queue[1..] + names
    requires forall p | Live(st, handled, p) :: p in t.reach
    requires forall p | p in names :: p in t.reach
    ensures forall p | Live(st', handled + {item}, p) :: p in t.reach
  {
    forall p | Live(st', handled + {item}, p) ensures p in t.reach {
      if p !in names { assert Live(st, handled, p); }
    }
  }

  lemma PasteTables(t: Task, st: State, st': State, item: Place, f: FileId)
    requires Tables(t, st) && Meant(t, item.1, Local(f))
    requires item.1 !in st.pastedDeclByName && item.1 !in st.refs
    requires st'.pastes == st.pastes + [(f, item.1)] && st'.refs == st.refs
    requires st'.pastedDeclByName == st.pastedDeclByName[item.1 := f]
    ensures Tables(t, st')
  {
    PasteOne(st, st', (f, item.1));
    hide Meant, PastedOnce;
  }

  lemma PasteOne(st: State, st': State, p: (FileId, string))
    requires PastedOnce(st) && p.1 !in st.pastedDeclByName && st'.pastes == st.pastes + [p]
    requires st'.pastedDeclByName == st.pastedDeclByName[p.1 := p.0]
    ensures PastedOnce(st')
  {
    assert forall q :: q in st'.pastes <==> q in st.pastes || q == p;
    forall i, j | 0 <= i < j < |st'.pastes| ensures st'.pastes[i].1 != st'.pastes[j].1 {
      assert st.pastes[i] in st.pastes;
    }
  }

  /** When the queue is empty, everything reachable has been handled. */
  lemma Finished(t: Task, st: State, handled: set<Place>)
    requires Valid(t, st, handled) && st.queue == []
    requires st.violations == [] ==> forall q | q in t.reach :: q in handled
    ensures st.violations == [] <==> Unambiguous(t)
    ensures st.violations == [] ==> ClosedFence(t, Fence(st.pastes, st.refs))
  {
    if st.violations == [] {
      assert st.pastes[0] in st.pastes;
      assert Settled(t, st, t.root);
      forall q, r | q in t.reach && r in t.reach && q.1 == r.1 ensures t.meaning(q) == t.meaning(r) {
        assert Settled(t, st, q) && Settled(t, st, r);
      }
      forall q | q in t.reach ensures Settled(t, st, q) {}
    }
  }

  ghost predicate InFence(t: Task, fence: Fence, p: Place) {
    match t.meaning(p)
    case Local(f) => (f, p.1) in fence.pastes
    case Ref(_, _) => p.1 in fence.refs && fence.refs[p.1] == t.meaning(p)
    case _ => false
  }

  /** What a fence must explain: the config type, and every name its declarations refer to. */
  ghost predicate Carried(t: Task, fence: Fence, p: Place) {
    p == t.root || exists q | q in fence.pastes :: p in t.names(q.0, q.1)
  }

  /** The violations are exactly the carried places that the fence does not have. */
  ghost predicate Accounted(t: Task, fence: Fence, violations: seq<Place>) {
    forall p :: p in violations <==> Carried(t, fence, p) && !InFence(t, fence, p)
  }

  lemma AllAccounted(t: Task, st: State, handled: set<Place>)
    requires Valid(t, st, handled) && st.queue == []
    ensures Accounted(t, Fence(st.pastes, st.refs), st.violations)
    ensures forall p | Carried(t, Fence(st.pastes, st.refs), p) :: !t.meaning(p).Throws?
  {
    hide Unambiguous, Meant;
    var fence := Fence(st.pastes, st.refs);
    forall p ensures Carried(t, fence, p) <==> p in handled { CarriedIsHandled(t, st, handled, p); }
    forall p | p in handled
      ensures Settled(t, st, p) <==> InFence(t, fence, p)
      ensures !(Settled(t, st, p) && Blocked(t, st, p))
    {
      NotBoth(t, st, p);
    }
  }

  lemma CarriedIsHandled(t: Task, st: State, handled: set<Place>, p: Place)
    requires Valid(t, st, handled) && st.queue == []
    ensures Carried(t, Fence(st.pastes, st.refs), p) <==> p in handled
  {
    hide Unambiguous, Judged, Meant;
    if p in handled && p != t.root {
      assert Live(st, handled, p);
      var n :| n in st.pastedDeclByName && p in t.names(st.pastedDeclByName[n], n);
      assert (st.pastedDeclByName[n], n) in st.pastes;
    }
    if q :| q in st.pastes && p in t.names(q.0, q.1) {
      assert q.1 in st.pastedDeclByName && st.pastedDeclByName[q.1] == q.0;
      assert Live(st, handled, p);
    }
  }

  /** With nothing left on the queue and no violation, the handled places are closed. */
  lemma AllHandled(files: Files, globals: set<string>, root: Place, st: State, handled: set<Place>)
    requires Valid(TaskOf(files, globals, root), st, handled) && st.queue == [] && st.violations == []
    ensures forall q | Reached(files, globals, root, q) :: q in handled
  {
    var t := TaskOf(files, globals, root);
    forall a | a in handled ensures Successors(files, globals, a) <= handled {
      forall p | p in Successors(files, globals, a) ensures p in handled {
        assert Settled(t, st, a);
        assert p in t.names(st.pastedDeclByName[a.1], a.1);
        assert Live(st, handled, p);
      }
    }
    forall q | Reached(files, globals, root, q) ensures q in handled {
      var n :| Reaches(files, globals, root, q, n);
      ClosedContains(files, globals, handled, root, q, n);
    }
  }

  lemma TaskClosed(files: Files, globals: set<string>, root: Place)
    ensures ReachClosed(TaskOf(files, globals, root))
  {
    var t := TaskOf(files, globals, root);
    assert Reaches(files, globals, root, root, 0);
    forall q, p | q in t.reach && t.meaning(q).Local? && p in t.names(t.meaning(q).file, q.1) ensures p in t.reach {
      var n :| Reaches(files, globals, root, q, n);
      ReachesOneMore(files, globals, root, q, p, n);
    }
  }

  /** The names any paste can add: those declared somewhere. */
  ghost function DeclaredNames(files: Files): set<string> {
    set f, n | f in files && n in files[f].decls :: n
  }

  /** A declaration's referenced names, in the order they were collected. */
  function NamesOf(names: seq<string>, globals: set<string>, f: FileId): (out: seq<Place>)
    ensures forall p :: p in out <==> p.0 == f && p.1 in names && p.1 !in globals
  {
    if names == [] then []
    else (if names[0] in globals then [] else [(f, names[0])]) + NamesOf(names[1..], globals, f)
  }

  lemma Start(t: Task, st: State)
    requires ReachClosed(t) && st == State([], map[], map[], [t.root], [])
    ensures Valid(t, st, {})
  {
  }

  /** What one round does with the item it takes off the queue. */
  method Round(files: Files, globals: set<string>, root: Place, before: State, ghost handled: set<Place>)
    returns (st: State)
    requires Valid(TaskOf(files, globals, root), before, handled) && before.queue != []
    requires !Resolve(files, before.queue[0]).Throws?
    ensures Valid(TaskOf(files, globals, root), st, handled + {before.queue[0]})
    ensures || (st.pastedDeclByName == before.pastedDeclByName && st.queue == before.queue[1..])
            || (before.pastedDeclByName.Keys < st.pastedDeclByName.Keys
                && st.pastedDeclByName.Keys - before.pastedDeclByName.Keys <= DeclaredNames(files))
  {
    hide Valid, Unambiguous;
    ghost var t := TaskOf(files, globals, root);
    var item := before.queue[0];
    var name := item.1;
    TaskClosed(files, globals, root);
    OnQueue(t, before, handled);
    st := before.(queue := before.queue[1..]);
    var resolved := Resolve(files, item);
    assert t.meaning(item) == resolved;
    if resolved.Unresolved? || (resolved.Ref? && name == root.1) {
      st := st.(violations := st.violations + [item]);
      NoMeaning(t, item);
      assert Blocked(t, before, item);
      Complain(t, before, st, handled, item);
    } else if name in st.pastedDeclByName && resolved != Local(st.pastedDeclByName[name]) {
      st := st.(violations := st.violations + [item]);
      Clash(t, item, Local(before.pastedDeclByName[name]));
      Complain(t, before, st, handled, item);
    } else if name in st.refs && resolved != st.refs[name] {
      st := st.(violations := st.violations + [item]);
      Clash(t, item, before.refs[name]);
      Complain(t, before, st, handled, item);
    } else if resolved.Ref? {
      st := st.(refs := st.refs[name := resolved]);
      RecordRef(t, before, st, handled, item, resolved);
    } else if name in st.pastedDeclByName {
      Keep(t, before, st, handled, item);
    } else {
      var names := NamesOf(files[resolved.file].decls[name], globals, resolved.file);
      st := st.(pastedDeclByName := st.pastedDeclByName[name := resolved.file],
                pastes := st.pastes + [(resolved.file, name)], queue := st.queue + names);
      assert before.pastedDeclByName.Keys + {name} == st.pastedDeclByName.Keys;
      Paste(t, before, st, handled, item, resolved.file, names);
    }
  }

  lemma Progress(all: set<string>, before: set<string>, after: set<string>)
    ensures before < after && after - before <= all ==> all - after < all - before
  {
    if before < after && after - before <= all {
      assert !(after <= before);
      var n :| n in after && n !in before;
      assert n in after - before;
      assert n in all - before && n !in all - after;
    }
  }

  /**
   * The queue loop. It always ends; it throws only on a place it really reached; and it records no
   * violation exactly when the fence is unambiguous, in which case the fence is closed. In any case
   * the violations are exactly the names the fence should carry and does not have.
   */
  method Collect(files: Files, globals: set<string>, root: Place) returns (out: Outcome)
    ensures out.Thrown? ==> exists p :: Reached(files, globals, root, p) && Resolve(files, p) == Throws
    ensures out.Done? ==> (out.violations == [] <==> Unambiguous(TaskOf(files, globals, root)))
    ensures out.Done? && out.violations == [] ==> ClosedFence(TaskOf(files, globals, root), out.fence)
    ensures out.Done? ==> Accounted(TaskOf(files, globals, root), out.fence, out.violations)
    ensures out.Done? ==> forall p | Carried(TaskOf(files, globals, root), out.fence, p) :: !Resolve(files, p).Throws?
  {
    hide Unambiguous, ClosedFence, DeclaredNames, ResolveFrom, ReachClosed, Accounted, Carried;
    ghost var t := TaskOf(files, globals, root);
    ghost var handled: set<Place> := {};
    var st := State([], map[], map[], [root], []);
    TaskClosed(files, globals, root);
    Start(t, st);
    hide Valid;
    while st.queue != []
      invariant Valid(t, st, handled)
      decreases DeclaredNames(files) - st.pastedDeclByName.Keys, |st.queue|
    {
      var item := st.queue[0];
      if Resolve(files, item).Throws? {
        OnQueue(t, st, handled);
        return Thrown;
      }
      ghost var before := st;
      st := Round(files, globals, root, st, handled);
      handled := handled + {item};
      Progress(DeclaredNames(files), before.pastedDeclByName.Keys, st.pastedDeclByName.Keys);
    }
    if st.violations == [] { AllHandled(files, globals, root, st, handled); }
    Finished(t, st, handled);
    AllAccounted(t, st, handled);
    out := Done(Fence(st.pastes, st.refs), st.violations);
  }

  // ---------------------------------------------------------------- the unguarded import chain

  /** The chain goes on for ever. */
  ghost predicate Endless(files: Files, f: FileId, name: string) {
    forall n: nat :: After(files, f, name, n).Some?
  }

  /** The chain arrives at a file that cannot be read. */
  ghost predicate LeavesReadable(files: Files, f: FileId, name: string) {
    exists n: nat :: After(files, f, name, n).Some? && After(files, f, name, n).value !in files
  }

  lemma ChainStep(files: Files, f: FileId, name: string)
    requires f in files
    ensures var h := Hop(files, f, name);
            if h.Some? then
              && (Endless(files, f, name) <==> Endless(files, h.value, name))
              && (LeavesReadable(files, f, name) <==> LeavesReadable(files, h.value, name))
            else !Endless(files, f, name) && !LeavesReadable(files, f, name)
  {
    var h := Hop(files, f, name);
    if h.Some? {
      var g := h.value;
      assert forall n: nat :: After(files, f, name, n + 1) == After(files, g, name, n);
      if Endless(files, f, name) {
        forall n: nat ensures After(files, g, name, n).Some? {
          assert After(files, f, name, n + 1).Some?;
        }
      }
      if Endless(files, g, name) {
        forall n: nat ensures After(files, f, name, n).Some? {
          if n > 0 { assert After(files, g, name, n - 1).Some?; }
        }
      }
      if LeavesReadable(files, f, name) {
        var n: nat :| After(files, f, name, n).Some? && After(files, f, name, n).value !in files;
        assert After(files, g, name, n - 1).value !in files;
      }
      if LeavesReadable(files, g, name) {
        var n: nat :| After(files, g, name, n).Some? && After(files, g, name, n).value !in files;
        assert After(files, f, name, n + 1).value !in files;
      }
    } else {
      assert After(files, f, name, 1).None?;
    }
  }

  lemma {:induction false} LoopIsEndless(files: Files, loop: set<FileId>, f: FileId, name: string, n: nat)
    requires f in loop
    requires forall c | c in loop :: Hop(files, c, name).Some? && Hop(files, c, name).value in loop
    ensures After(files, f, name, n).Some?
    decreases n
  {
    if n > 0 { LoopIsEndless(files, loop, Hop(files, f, name).value, name, n - 1); }
  }

  /**
   * Exactly when resolving a name throws: the chain of relative imports reaches an unreadable file
   * or never ends. `chain` holds the files already passed through.
   */
  lemma {:induction false} ChainThrowsIff(files: Files, f: FileId, name: string, chain: set<FileId>)
    requires forall c | c in chain ::
               Hop(files, c, name).Some? && (Hop(files, c, name).value in chain || Hop(files, c, name).value == f)
    ensures ResolveFrom(files, f, name, chain).Throws? <==>
            Endless(files, f, name) || LeavesReadable(files, f, name)
    decreases files.Keys - chain
  {
    if f !in files {
      assert After(files, f, name, 0) == Some(f);
    } else if f in chain {
      forall n: nat ensures After(files, f, name, n).Some? { LoopIsEndless(files, chain, f, name, n); }
    } else {
      ChainStep(files, f, name);
      var h := Hop(files, f, name);
      if h.Some? { ChainThrowsIff(files, h.value, name, chain + {f}); }
    }
  }

  // ---------------------------------------------------------------- what each answer means

  /** After some hops the chain comes to a file that has none, and that can be read. */
  ghost predicate EndsAt(files: Files, f: FileId, name: string, g: FileId) {
    && g in files && Hop(files, g, name).None?
    && exists n: nat :: After(files, f, name, n) == Some(g)
  }

  /** Where the chain ends, the name is declared, imported from a package, or neither. */
  predicate Declares(files: Files, g: FileId, name: string)
    requires g in files
  {
    name in files[g].decls
  }

  predicate ImportsExternal(files: Files, g: FileId, name: string, specifier: string, imported: string)
    requires g in files
  {
    && name !in files[g].decls
    && name in files[g].imports && files[g].imports[name] == External(specifier, imported)
  }

  /** Neither declared nor imported, or imported under another name or from no `.ts` file. */
  predicate Unknowable(files: Files, g: FileId, name: string)
    requires g in files
  {
    && name !in files[g].decls
    && (name in files[g].imports ==>
          || files[g].imports[name].NotTs?
          || (files[g].imports[name].FromFile? && files[g].imports[name].imported != name))
  }

  lemma EndsOneHopOn(files: Files, f: FileId, name: string, g: FileId)
    requires Hop(files, f, name).Some?
    ensures EndsAt(files, f, name, g) <==> EndsAt(files, Hop(files, f, name).value, name, g)
  {
    var h := Hop(files, f, name).value;
    if n: nat :| After(files, f, name, n) == Some(g) && Hop(files, g, name).None? {
      assert After(files, h, name, n - 1) == Some(g);
    }
    if n: nat :| After(files, h, name, n) == Some(g) { assert After(files, f, name, n + 1) == Some(g); }
  }

  lemma EndsHere(files: Files, f: FileId, name: string, g: FileId)
    requires f in files && Hop(files, f, name).None?
    ensures EndsAt(files, f, name, g) <==> g == f
  {
    assert After(files, f, name, 0) == Some(f);
  }

  lemma EndlessEndsNowhere(files: Files, f: FileId, name: string, g: FileId)
    requires Endless(files, f, name) || LeavesReadable(files, f, name)
    ensures !EndsAt(files, f, name, g)
  {
    if EndsAt(files, f, name, g) {
      var n: nat :| After(files, f, name, n) == Some(g);
      NoFurther(files, f, name, n, g);
      assert After(files, f, name, n + 1).None?;
      if m: nat :| After(files, f, name, m).Some? && After(files, f, name, m).value !in files {
        NoFurther(files, f, name, m, After(files, f, name, m).value);
      }
    }
  }

  /** Past a file without a hop the chain does not go on. */
  lemma {:induction false} NoFurther(files: Files, f: FileId, name: string, n: nat, g: FileId)
    requires After(files, f, name, n) == Some(g) && Hop(files, g, name).None?
    ensures forall m: nat | m > n :: After(files, f, name, m).None?
    decreases n
  {
    forall m: nat | m > n ensures After(files, f, name, m).None? {
      if n > 0 { NoFurther(files, Hop(files, f, name).value, name, n - 1, g); }
    }
  }

  /**
   * What `resolveTypeName` answers, exactly: the chain of relative imports under the same name ends in
   * a file that declares the name, imports it from a package, or does neither.
   */
  lemma {:induction false} ResolvesIff(files: Files, f: FileId, name: string, chain: set<FileId>)
    requires forall c | c in chain ::
               Hop(files, c, name).Some? && (Hop(files, c, name).value in chain || Hop(files, c, name).value == f)
    ensures var r := ResolveFrom(files, f, name, chain);
            && (forall g :: r == Local(g) <==> EndsAt(files, f, name, g) && Declares(files, g, name))
            && (forall s, i :: r == Ref(s, i) <==>
                  exists g :: EndsAt(files, f, name, g) && ImportsExternal(files, g, name, s, i))
            && (r.Unresolved? <==> exists g :: EndsAt(files, f, name, g) && Unknowable(files, g, name))
    decreases files.Keys - chain
  {
    ChainThrowsIff(files, f, name, chain);
    if ResolveFrom(files, f, name, chain).Throws? {
      forall g ensures !EndsAt(files, f, name, g) { EndlessEndsNowhere(files, f, name, g); }
    } else {
      var h := Hop(files, f, name);
      if h.Some? {
        ResolvesIff(files, h.value, name, chain + {f});
        hide After;
        forall g { EndsOneHopOn(files, f, name, g); }
        hide EndsAt;
      } else {
        forall g { EndsHere(files, f, name, g); }
        hide EndsAt;
        assert EndsAt(files, f, name, f);
      }
    }
  }

  /** So a reached name that is imported under another name leaves no fence to be written. */
  lemma AliasIsAmbiguous(files: Files, globals: set<string>, root: Place, q: Place, g: FileId)
    requires Reached(files, globals, root, q) && EndsAt(files, q.0, q.1, g)
    requires q.1 !in files[g].decls && q.1 in files[g].imports
    requires files[g].imports[q.1].FromFile? && files[g].imports[q.1].imported != q.1
    ensures Resolve(files, q).Unresolved? && !Unambiguous(TaskOf(files, globals, root))
  {
    ResolvesIff(files, q.0, q.1, {});
    var t := TaskOf(files, globals, root);
    assert q in t.reach && t.meaning(q) == Resolve(files, q);
  }
}
