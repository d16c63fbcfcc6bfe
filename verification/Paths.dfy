/** internal/dstore/paths: adding a directory tree to a manifest library and restoring it. Paths are lists of
    entry names; `Rel` joins them with slashes as `filepath.Rel` does on cleaned absolute paths. */
module Paths {
  import opened Prelude
  import opened Manifest
  import opened Sealing
  import opened Restore
  import Pl = Pipeline
  import R = RestoreFile

  type Comps = seq<string>

  predicate Names(p: Comps) {
    forall i | 0 <= i < |p| :: EntryName(p[i])
  }

  // ---------------------------------------------------------------- the lexical overlap check

  function Common(a: Comps, b: Comps): (k: nat)
    ensures k <= |a| && k <= |b| && a[..k] == b[..k]
    ensures k < |a| && k < |b| ==> a[k] != b[k]
  {
    if a != [] && b != [] && a[0] == b[0] then 1 + Common(a[1..], b[1..]) else 0
  }

  function Slashed(p: Comps): string {
    if p == [] then "." else if |p| == 1 then p[0] else p[0] + "/" + Slashed(p[1..])
  }

  function Ups(n: nat): Comps {
    seq(n, _ => "..")
  }

  /** `filepath.Rel`: up to the common part, then down. */
  function Rel(base: Comps, target: Comps): string {
    var k := Common(base, target);
    Slashed(Ups(|base| - k) + target[k..])
  }

  /** `pathWithin`, on the text of the relative path. */
  predicate PathWithin(parent: Comps, child: Comps) {
    var rel := Rel(parent, child);
    rel != ".." && !("../" <= rel)
  }

  lemma FirstComponent(p: Comps)
    requires p != [] && EntryName(p[0])
    ensures Slashed(p) != ".." && !("../" <= Slashed(p))
  {
    var c, s := p[0], Slashed(p);
    assert s[..|c|] == c;
    if |c| == 1 {
      assert c == [c[0]] && s[0] == c[0] != '.';
    } else if |c| == 2 {
      assert c == [c[0], c[1]] && s[0] == c[0] && s[1] == c[1] && (c[0] != '.' || c[1] != '.');
    } else {
      assert s[2] == c[2] != '/';
    }
  }

  /** The text check is right: it holds exactly when the parent's components are a prefix of the child's, also
      for names that merely begin with two dots. */
  lemma WithinExactly(parent: Comps, child: Comps)
    requires Names(parent) && Names(child)
    ensures PathWithin(parent, child) <==> parent <= child
  {
    var k := Common(parent, child);
    if k == |parent| {
      assert Ups(0) + child[k..] == child[k..];
      if k < |child| { FirstComponent(child[k..]); }
    } else {
      var up := Ups(|parent| - k) + child[k..];
      assert up[0] == "..";
      if |up| > 1 { assert Slashed(up)[..3] == "../"; }
    }
  }

  lemma SharedPrefix(a: Comps, b: Comps, below: Comps, under: Comps)
    requires a + below == b + under && |a| <= |b|
    ensures a <= b
  {
    assert b == (b + under)[..|b|];
    assert b[..|a|] == (a + below)[..|a|] == a;
  }

  /** The overlap check of `AddPath` and `RestoreDirectory` refuses exactly the pairs of places that have some path in
      common: what passes cannot be both walked and written. */
  lemma OverlapExactly(source: Comps, library: Comps)
    requires Names(source) && Names(library)
    ensures PathWithin(source, library) || PathWithin(library, source)
            <==> exists below: Comps, under: Comps :: source + below == library + under
  {
    WithinExactly(source, library);
    WithinExactly(library, source);
    if source <= library { assert source + library[|source|..] == library + []; }
    if library <= source { assert source + [] == library + source[|library|..]; }
    if below: Comps, under: Comps :| source + below == library + under {
      if |source| <= |library| {
        SharedPrefix(source, library, below, under);
      } else {
        SharedPrefix(library, source, under, below);
      }
    }
  }

  // ---------------------------------------------------------------- trees

  datatype Node<+A> = Dir | File(content: A) | Special

  /** What is below a directory, by relative path; the directory itself is the empty path. */
  type Tree<A> = map<Comps, Node<A>>

  function Parent(p: Comps): Comps
    requires p != []
  {
    p[..|p| - 1]
  }

  function Last(p: Comps): string
    requires p != []
  {
    p[|p| - 1]
  }

  predicate InDirectory<A>(t: Tree<A>, p: Comps) {
    p != [] ==> EntryName(Last(p)) && Parent(p) in t && t[Parent(p)].Dir?
  }

  ghost predicate IsTree<A>(t: Tree<A>) {
    && [] in t && t[[]].Dir?
    && forall p {:trigger InDirectory(t, p)} | p in t :: InDirectory(t, p)
  }

  predicate AfterParent(visits: seq<Comps>, i: nat)
    requires i < |visits|
  {
    visits[i] != [] ==> Parent(visits[i]) in visits[..i]
  }

  /** An order in which `WalkDir` visits a tree: everything once, directories before what they contain. */
  ghost predicate WalkOf<A>(t: Tree<A>, visits: seq<Comps>) {
    && (forall p :: p in t <==> p in visits)
    && (forall i, j | 0 <= i < j < |visits| :: visits[i] != visits[j])
    && (forall i {:trigger AfterParent(visits, i)} | 0 <= i < |visits| :: AfterParent(visits, i))
  }

  /** What the callback of a walk does at one path. */
  datatype Step<+B> = Refuse | Ignore | MakeDir | Create(at: Comps, content: B)

  function MkdirAll<B>(t: Tree<B>, p: Comps): Option<Tree<B>> {
    if p in t then (if t[p].Dir? then Some(t) else None)
    else if p == [] then None
    else match MkdirAll(t, Parent(p)) case None => None case Some(u) => Some(u[p := Dir])
  }

  function CreateFile<B>(t: Tree<B>, p: Comps, content: B): Option<Tree<B>> {
    if p == [] || p in t || Parent(p) !in t || !t[Parent(p)].Dir? then None else Some(t[p := File(content)])
  }

  function Apply<B>(t: Tree<B>, p: Comps, step: Step<B>): Option<Tree<B>> {
    match step
    case Refuse => None
    case Ignore => Some(t)
    case MakeDir => MkdirAll(t, p)
    case Create(at, content) => CreateFile(t, at, content)
  }

  // ---------------------------------------------------------------- one walk

  /** Where a step puts something, if anywhere. */
  function Target<B>(p: Comps, step: Step<B>): Option<Comps> {
    match step case MakeDir => Some(p) case Create(at, _) => Some(at) case _ => None
  }

  function Made<B>(step: Step<B>): Node<B> {
    if step.Create? then File(step.content) else Dir
  }

  /** No two visits want the same place. */
  ghost predicate NoClash<B>(visits: seq<Comps>, plan: Comps -> Step<B>) {
    forall i, j | 0 <= i < j < |visits| && Target(visits[i], plan(visits[i])).Some? ::
      Target(visits[i], plan(visits[i])) != Target(visits[j], plan(visits[j]))
  }

  ghost predicate NoRefusal<B>(visits: seq<Comps>, plan: Comps -> Step<B>) {
    forall i | 0 <= i < |visits| :: !plan(visits[i]).Refuse?
  }

  /** The new tree holds what the visits made and nothing else. */
  ghost predicate MadeBy<B>(t: Tree<B>, visits: seq<Comps>, plan: Comps -> Step<B>) {
    && [] in t && t[[]].Dir?
    && (forall p | p in visits && Target(p, plan(p)).Some? ::
          Target(p, plan(p)).value in t && t[Target(p, plan(p)).value] == Made(plan(p)))
    && (forall q | q in t && q != [] :: exists p | p in visits :: Target(p, plan(p)) == Some(q))
  }

  /** A plan makes directories where the walked tree has them, and puts files beside what they are made from. */
  ghost predicate Mirrors<A, B>(t: Tree<A>, plan: Comps -> Step<B>) {
    forall p | p in t ::
      && (plan(p).MakeDir? <==> t[p].Dir? && !plan(p).Refuse?)
      && (plan(p).Create? ==> p != [] && plan(p).at != [] && Parent(plan(p).at) == Parent(p))
  }

  lemma MakesDir<B>(t: Tree<B>, p: Comps)
    requires [] in t && (p != [] ==> Parent(p) in t && t[Parent(p)].Dir?)
    ensures MkdirAll(t, p) == if p !in t then Some(t[p := Dir]) else if t[p].Dir? then Some(t) else None
  {
  }

  ghost predicate Makeable<B>(done: seq<Comps>, plan: Comps -> Step<B>) {
    NoRefusal(done, plan) && NoClash(done, plan)
  }

  lemma PrefixMakeable<B>(visits: seq<Comps>, plan: Comps -> Step<B>, n: nat)
    requires n <= |visits| && Makeable(visits, plan)
    ensures Makeable(visits[..n], plan)
  {
  }

  /** One more visit fits exactly when its place is still free. */
  lemma FreeExactly<B>(made: Tree<B>, done: seq<Comps>, plan: Comps -> Step<B>, p: Comps, q: Comps)
    requires MadeBy(made, done, plan) && Makeable(done, plan) && !plan(p).Refuse? && Target(p, plan(p)) == Some(q)
             && q != []
    ensures Makeable(done + [p], plan) <==> q !in made
  {
    var more := done + [p];
    if q in made {
      var d :| d in done && Target(d, plan(d)) == Some(q);
      var i :| 0 <= i < |done| && done[i] == d;
      assert more[i] == d && more[|done|] == p;
    } else {
      forall i, j | 0 <= i < j < |more| && Target(more[i], plan(more[i])).Some?
        ensures Target(more[i], plan(more[i])) != Target(more[j], plan(more[j]))
      {
        if j == |done| { assert more[i] in done; } else { assert more[i] == done[i] && more[j] == done[j]; }
      }
    }
  }

  lemma MadeMore<B>(made: Tree<B>, done: seq<Comps>, plan: Comps -> Step<B>, p: Comps, q: Comps)
    requires MadeBy(made, done, plan) && Target(p, plan(p)) == Some(q) && q !in made
    ensures MadeBy(made[q := Made(plan(p))], done + [p], plan)
  {
    var more := made[q := Made(plan(p))];
    forall r | r in more && r != [] ensures exists d | d in done + [p] :: Target(d, plan(d)) == Some(r) {
      if r in made {
        var d :| d in done && Target(d, plan(d)) == Some(r);
        assert d in done + [p];
      } else {
        assert p in done + [p];
      }
    }
  }

  lemma ParentMade<A, B>(tree: Tree<A>, visits: seq<Comps>, plan: Comps -> Step<B>, i: nat, made: Tree<B>)
    requires IsTree(tree) && WalkOf(tree, visits) && Mirrors(tree, plan) && i < |visits| && visits[i] != []
    requires MadeBy(made, visits[..i], plan) && NoRefusal(visits[..i], plan)
    ensures Parent(visits[i]) in made && made[Parent(visits[i])].Dir?
  {
    var d := Parent(visits[i]);
    assert visits[i] in visits && InDirectory(tree, visits[i]) && AfterParent(visits, i);
    assert d in tree && tree[d].Dir?;
    assert !plan(d).Refuse? by {
      var j :| 0 <= j < i && visits[..i][j] == d;
    }
    assert plan(d).MakeDir?;
  }

  /** The root is there already; making it again changes nothing. */
  lemma RootMade<A, B>(tree: Tree<A>, visits: seq<Comps>, plan: Comps -> Step<B>, i: nat, made: Tree<B>)
    requires IsTree(tree) && WalkOf(tree, visits) && Mirrors(tree, plan) && i < |visits| && visits[i] == []
    requires MadeBy(made, visits[..i], plan) && Makeable(visits[..i], plan) && plan([]).MakeDir?
    ensures MadeBy(made, visits[..i] + [[]], plan) && Makeable(visits[..i] + [[]], plan)
  {
    hide WalkOf, IsTree;
    var done := visits[..i];
    VisitedOnce(tree, visits, i);
    assert forall d | d in done :: Target(d, plan(d)) != Some([]);
    RootIsFree(made, done, plan);
  }

  lemma RootIsFree<B>(made: Tree<B>, done: seq<Comps>, plan: Comps -> Step<B>)
    requires MadeBy(made, done, plan) && Makeable(done, plan) && plan([]).MakeDir?
    requires forall d | d in done :: Target(d, plan(d)) != Some([])
    ensures MadeBy(made, done + [[]], plan) && Makeable(done + [[]], plan)
  {
    var more := done + [[]];
    forall k, j | 0 <= k < j < |more| && Target(more[k], plan(more[k])).Some?
      ensures Target(more[k], plan(more[k])) != Target(more[j], plan(more[j]))
    {
      assert more[k] == done[k] && done[k] in done;
      if j < |done| { assert more[j] == done[j]; }
    }
    forall q | q in made && q != [] ensures exists p | p in more :: Target(p, plan(p)) == Some(q) {
      var p :| p in done && Target(p, plan(p)) == Some(q);
      assert p in more;
    }
  }

  lemma StepExactly<A, B>(tree: Tree<A>, visits: seq<Comps>, plan: Comps -> Step<B>, i: nat, made: Tree<B>)
    requires IsTree(tree) && WalkOf(tree, visits) && Mirrors(tree, plan) && i < |visits|
    requires MadeBy(made, visits[..i], plan) && Makeable(visits[..i], plan)
    ensures var p := visits[i];
            var next := Apply(made, p, plan(p));
            && (next.Some? <==> Makeable(visits[..i] + [p], plan))
            && (next.Some? ==> MadeBy(next.value, visits[..i] + [p], plan))
  {
    hide IsTree, WalkOf, NoClash, NoRefusal, MadeBy, MkdirAll;
    var p, done := visits[i], visits[..i];
    VisitedIsThere(tree, visits, plan, i, made);
    match plan(p) {
      case Refuse => RefusedStops(done, plan, p);
      case Ignore => IgnoredIsFree(made, done, plan, p);
      case MakeDir =>
        MakesDir(made, p);
        if p == [] {
          RootMade(tree, visits, plan, i, made);
        } else {
          if p in made { OnlyFileThere(tree, visits, plan, i, made); }
          FreeExactly(made, done, plan, p, p);
          if p !in made { MadeMore(made, done, plan, p, p); }
        }
      case Create(at, _) =>
        FreeExactly(made, done, plan, p, at);
        if at !in made { MadeMore(made, done, plan, p, at); }
    }
  }

  lemma VisitedIsThere<A, B>(tree: Tree<A>, visits: seq<Comps>, plan: Comps -> Step<B>, i: nat, made: Tree<B>)
    requires IsTree(tree) && WalkOf(tree, visits) && Mirrors(tree, plan) && i < |visits|
    requires MadeBy(made, visits[..i], plan) && NoRefusal(visits[..i], plan)
    ensures [] in made && made[[]].Dir? && visits[i] in tree
    ensures visits[i] != [] ==> Parent(visits[i]) in made && made[Parent(visits[i])].Dir?
  {
    if visits[i] != [] { ParentMade(tree, visits, plan, i, made); }
  }

  lemma RefusedStops<B>(done: seq<Comps>, plan: Comps -> Step<B>, p: Comps)
    requires plan(p).Refuse?
    ensures !Makeable(done + [p], plan)
  {
    assert (done + [p])[|done|] == p;
  }

  lemma IgnoredIsFree<B>(made: Tree<B>, done: seq<Comps>, plan: Comps -> Step<B>, p: Comps)
    requires MadeBy(made, done, plan) && Makeable(done, plan) && plan(p).Ignore?
    ensures MadeBy(made, done + [p], plan) && Makeable(done + [p], plan)
  {
    var more := done + [p];
    forall i, j | 0 <= i < j < |more| && Target(more[i], plan(more[i])).Some?
      ensures Target(more[i], plan(more[i])) != Target(more[j], plan(more[j]))
    {
      if j < |done| { assert more[i] == done[i] && more[j] == done[j]; }
    }
    forall q | q in made && q != [] ensures exists d | d in more :: Target(d, plan(d)) == Some(q) {
      var d :| d in done && Target(d, plan(d)) == Some(q);
      assert d in more;
    }
  }

  lemma VisitedOnce<A>(tree: Tree<A>, visits: seq<Comps>, i: nat)
    requires WalkOf(tree, visits) && i < |visits|
    ensures visits[i] !in visits[..i] && visits[i] in tree
    ensures forall d | d in visits[..i] :: d in tree
  {
  }

  /** What is in the way of a directory can only be a file. */
  lemma OnlyFileThere<A, B>(tree: Tree<A>, visits: seq<Comps>, plan: Comps -> Step<B>, i: nat, made: Tree<B>)
    requires IsTree(tree) && WalkOf(tree, visits) && i < |visits| && visits[i] != [] && visits[i] in made
    requires MadeBy(made, visits[..i], plan)
    ensures made[visits[i]].File?
  {
    hide WalkOf, IsTree;
    VisitedOnce(tree, visits, i);
    var d :| d in visits[..i] && Target(d, plan(d)) == Some(visits[i]);
  }

  /** The walk stops at the first step that cannot be made; what is there then is what the visits before it made.
      It completes exactly when no step is refused and no two steps want the same place. */
  method Walk<A, B>(tree: Tree<A>, visits: seq<Comps>, plan: Comps -> Step<B>) returns (ok: bool, made: Tree<B>)
    requires IsTree(tree) && WalkOf(tree, visits) && Mirrors(tree, plan)
    ensures ok <==> Makeable(visits, plan)
    ensures exists n: nat | n <= |visits| :: MadeBy(made, visits[..n], plan) && (ok ==> n == |visits|)
  {
    hide IsTree, WalkOf, Makeable, MadeBy, Mirrors;
    made := map[[] := Dir];
    NothingVisited(made, visits, plan);
    for i := 0 to |visits|
      invariant MadeBy(made, visits[..i], plan) && Makeable(visits[..i], plan)
    {
      var p := visits[i];
      var next := Apply(made, p, plan(p));
      StepExactly(tree, visits, plan, i, made);
      assert visits[..i + 1] == visits[..i] + [p];
      if next.None? {
        if Makeable(visits, plan) { PrefixMakeable(visits, plan, i + 1); }
        return false, made;
      }
      made := next.value;
    }
    assert visits[..|visits|] == visits;
    ok := true;
  }

  lemma NothingVisited<B>(made: Tree<B>, visits: seq<Comps>, plan: Comps -> Step<B>)
    requires made == map[[] := Dir]
    ensures MadeBy(made, visits[..0], plan) && Makeable(visits[..0], plan)
  {
  }

  // ---------------------------------------------------------------- adding a directory

  function Stub(p: Comps): Comps
    requires p != []
  {
    Parent(p) + [Last(p) + Pl.STUB_EXTENSION]
  }

  /** The callback of `AddPath`. `add` is what `processFile` makes of a file (`None` when it fails), `trouble` marks
      entries that cannot be read or made, or were reached after a cancellation. */
  function AddPlan(tree: Tree<Bytes>, trouble: Comps -> bool,
                   add: (Comps, Bytes) -> Option<Manifest>): Comps -> Step<Manifest>
  {
    p =>
      if p !in tree then Ignore else if trouble(p) then Refuse
      else match tree[p]
        case Dir => MakeDir
        case Special => Refuse
        case File(bytes) =>
          if p == [] || Pl.IsStubName(Last(p)) || add(p, bytes).None? then Refuse
          else Create(Stub(p), add(p, bytes).value)
  }

  predicate AddsEntry(tree: Tree<Bytes>, trouble: Comps -> bool, add: (Comps, Bytes) -> Option<Manifest>, p: Comps)
    requires p in tree
  {
    && !trouble(p) && !tree[p].Special?
    && (tree[p].File? ==> p != [] && !Pl.IsStubName(Last(p)) && add(p, tree[p].content).Some?)
  }

  /** Nothing troublesome, no special entry, no file named like a manifest, every file captured, and nothing in the
      tree already named like the manifest of a file beside it. */
  ghost predicate Addable(tree: Tree<Bytes>, trouble: Comps -> bool, add: (Comps, Bytes) -> Option<Manifest>) {
    forall p | p in tree :: AddsEntry(tree, trouble, add, p) && (tree[p].File? ==> Stub(p) !in tree)
  }

  /** The library's directories are the tree's, and its files are the manifests of the tree's files. */
  ghost predicate LibraryOf(tree: Tree<Bytes>, add: (Comps, Bytes) -> Option<Manifest>, lib: Tree<Manifest>) {
    && (forall p | p in tree && tree[p].Dir? :: p in lib && lib[p].Dir?)
    && (forall p | p in tree && tree[p].File? && p != [] ::
          add(p, tree[p].content).Some? && Stub(p) in lib && lib[Stub(p)] == File(add(p, tree[p].content).value))
    && (forall q | q in lib ::
          || (lib[q].Dir? && q in tree && tree[q].Dir?)
          || (lib[q].File? && exists p | p in tree && tree[p].File? && p != [] :: Stub(p) == q))
  }

  lemma StubInjective(p: Comps, q: Comps)
    requires p != [] && q != [] && Stub(p) == Stub(q)
    ensures p == q
  {
    assert Parent(Stub(p)) == Parent(p) && Parent(Stub(q)) == Parent(q);
    assert Last(Stub(p)) == Last(p) + Pl.STUB_EXTENSION && Last(Stub(q)) == Last(q) + Pl.STUB_EXTENSION;
    assert Last(p) == (Last(p) + Pl.STUB_EXTENSION)[..|Last(p)|];
    assert Last(q) == (Last(q) + Pl.STUB_EXTENSION)[..|Last(q)|];
    assert p == Parent(p) + [Last(p)] && q == Parent(q) + [Last(q)];
  }

  lemma StubStrips(p: Comps)
    requires p != []
    ensures Stub(p) != [] && Pl.IsStubName(Last(Stub(p))) && R.StripStub(Last(Stub(p))) == Last(p)
    ensures Parent(Stub(p)) == Parent(p)
  {
    var name := Last(p) + Pl.STUB_EXTENSION;
    assert name[|name| - |Pl.STUB_EXTENSION|..] == Pl.STUB_EXTENSION && name[..|Last(p)|] == Last(p);
  }

  /** Makeable, in terms of the tree that is walked. */
  lemma MakeableExactly<A, B>(tree: Tree<A>, visits: seq<Comps>, plan: Comps -> Step<B>)
    requires WalkOf(tree, visits)
    ensures Makeable(visits, plan) <==>
            && (forall p | p in tree :: !plan(p).Refuse?)
            && (forall p, q | p in tree && q in tree && p != q && Target(p, plan(p)).Some? ::
                  Target(p, plan(p)) != Target(q, plan(q)))
  {
    if Makeable(visits, plan) {
      forall p | p in tree ensures !plan(p).Refuse? {
        assert p in visits;
      }
      forall p, q | p in tree && q in tree && p != q && Target(p, plan(p)).Some?
        ensures Target(p, plan(p)) != Target(q, plan(q))
      {
        var i :| 0 <= i < |visits| && visits[i] == p;
        var j :| 0 <= j < |visits| && visits[j] == q;
      }
    } else {
      forall i | 0 <= i < |visits| ensures visits[i] in tree { assert visits[i] in visits; }
    }
  }

  lemma MadeExactly<A, B>(tree: Tree<A>, visits: seq<Comps>, plan: Comps -> Step<B>, t: Tree<B>)
    requires WalkOf(tree, visits) && MadeBy(t, visits, plan)
    ensures [] in t && t[[]].Dir?
    ensures forall p | p in tree && Target(p, plan(p)).Some? ::
              Target(p, plan(p)).value in t && t[Target(p, plan(p)).value] == Made(plan(p))
    ensures forall q | q in t && q != [] :: exists p | p in tree :: Target(p, plan(p)) == Some(q)
  {
    forall q | q in t && q != [] ensures exists p | p in tree :: Target(p, plan(p)) == Some(q) {
      var p :| p in visits && Target(p, plan(p)) == Some(q);
      assert p in tree;
    }
  }

  /** `AddPath` on a directory. It succeeds exactly on addable trees, and then the library mirrors the tree. */
  method AddDirectory(source: Comps, library: Comps, taken: bool, tree: Tree<Bytes>, visits: seq<Comps>,
                      trouble: Comps -> bool, add: (Comps, Bytes) -> Option<Manifest>)
    returns (ok: bool, lib: Tree<Manifest>)
    requires Names(source) && Names(library) && IsTree(tree) && WalkOf(tree, visits)
    ensures ok <==> !(source <= library) && !(library <= source) && !taken && Addable(tree, trouble, add)
    ensures ok ==> LibraryOf(tree, add, lib)
    ensures ok <==> !(source <= library) && !(library <= source) && !taken && forall p | p in tree ::
                      && !trouble(p) && !tree[p].Special?
                      && (tree[p].File? ==> && (forall stem: string :: Last(p) != stem + ".dstore")
                                            && add(p, tree[p].content).Some?
                                            && Parent(p) + [Last(p) + ".dstore"] !in tree)
  {
    AddableMeans(tree, trouble, add);
    WithinExactly(source, library);
    WithinExactly(library, source);
    if PathWithin(source, library) || PathWithin(library, source) { return false, map[]; }
    if taken { return false, map[]; }
    AddableExactly(tree, visits, trouble, add);
    ok, lib := Walk(tree, visits, AddPlan(tree, trouble, add));
    if ok {
      assert visits[..|visits|] == visits;
      MadeIsLibrary(tree, visits, trouble, add, lib);
    }
  }

  lemma AddableMeans(tree: Tree<Bytes>, trouble: Comps -> bool, add: (Comps, Bytes) -> Option<Manifest>)
    requires IsTree(tree)
    ensures Addable(tree, trouble, add) <==> forall p | p in tree ::
              && !trouble(p) && !tree[p].Special?
              && (tree[p].File? ==> && (forall stem: string :: Last(p) != stem + ".dstore")
                                    && add(p, tree[p].content).Some? && Parent(p) + [Last(p) + ".dstore"] !in tree)
  {
    forall p | p in tree && p != []
      ensures Pl.IsStubName(Last(p)) <==> exists stem: string :: Last(p) == stem + ".dstore"
    {
      Pl.StubNames(Last(p));
    }
  }

  lemma AddsWhat(tree: Tree<Bytes>, trouble: Comps -> bool, add: (Comps, Bytes) -> Option<Manifest>, p: Comps)
    requires p in tree
    ensures var step := AddPlan(tree, trouble, add)(p);
            if !AddsEntry(tree, trouble, add, p) then step == Refuse
            else if tree[p].Dir? then step == MakeDir
            else step == Create(Stub(p), add(p, tree[p].content).value)
  {
  }

  lemma AddableExactly(tree: Tree<Bytes>, visits: seq<Comps>, trouble: Comps -> bool,
                       add: (Comps, Bytes) -> Option<Manifest>)
    requires IsTree(tree) && WalkOf(tree, visits)
    ensures Mirrors(tree, AddPlan(tree, trouble, add))
    ensures Makeable(visits, AddPlan(tree, trouble, add)) <==> Addable(tree, trouble, add)
  {
    hide WalkOf, Makeable, AddPlan, AddsEntry, Stub;
    var plan := AddPlan(tree, trouble, add);
    MakeableExactly(tree, visits, plan);
    forall p | p in tree
      ensures plan(p).Refuse? <==> !AddsEntry(tree, trouble, add, p)
    {
      AddsWhat(tree, trouble, add, p);
    }
    AddMirrors(tree, trouble, add);
    forall p, q | p in tree && q in tree && p != q && Target(p, plan(p)).Some? && Addable(tree, trouble, add)
      ensures Target(p, plan(p)) != Target(q, plan(q))
    {
      AddsApart(tree, trouble, add, p, q);
    }
    if Makeable(visits, plan) {
      forall p | p in tree && tree[p].File? ensures AddsEntry(tree, trouble, add, p) && p != [] && Stub(p) !in tree {
        FileIsBelow(tree, p);
        AddsWhat(tree, trouble, add, p);
        if Stub(p) in tree { AddsClash(tree, trouble, add, p); }
      }
    }
  }

  lemma FileIsBelow<A>(tree: Tree<A>, p: Comps)
    requires IsTree(tree) && p in tree && !tree[p].Dir?
    ensures p != []
  {
  }

  lemma AddMirrors(tree: Tree<Bytes>, trouble: Comps -> bool, add: (Comps, Bytes) -> Option<Manifest>)
    ensures Mirrors(tree, AddPlan(tree, trouble, add))
  {
    hide AddPlan;
    var plan := AddPlan(tree, trouble, add);
    forall p | p in tree
      ensures (plan(p).MakeDir? <==> tree[p].Dir? && !plan(p).Refuse?)
              && (plan(p).Create? ==> p != [] && plan(p).at != [] && Parent(plan(p).at) == Parent(p))
    {
      AddsWhat(tree, trouble, add, p);
      if p != [] { StubStrips(p); }
    }
  }

  lemma AddsApart(tree: Tree<Bytes>, trouble: Comps -> bool, add: (Comps, Bytes) -> Option<Manifest>, p: Comps,
                  q: Comps)
    requires p in tree && q in tree && p != q && Addable(tree, trouble, add)
    ensures var plan := AddPlan(tree, trouble, add); Target(p, plan(p)) != Target(q, plan(q))
  {
    hide AddPlan;
    AddsWhat(tree, trouble, add, p);
    AddsWhat(tree, trouble, add, q);
    if tree[p].File? && tree[q].File? && Stub(p) == Stub(q) { StubInjective(p, q); }
  }

  /** A manifest's place that is taken by an entry of the tree is taken by a directory that the walk makes too. */
  lemma AddsClash(tree: Tree<Bytes>, trouble: Comps -> bool, add: (Comps, Bytes) -> Option<Manifest>, p: Comps)
    requires p in tree && tree[p].File? && p != [] && Stub(p) in tree
    requires AddsEntry(tree, trouble, add, p) && AddsEntry(tree, trouble, add, Stub(p))
    ensures var plan := AddPlan(tree, trouble, add);
            p != Stub(p) && Target(p, plan(p)) == Target(Stub(p), plan(Stub(p))) == Some(Stub(p))
  {
    hide AddPlan;
    StubStrips(p);
    AddsWhat(tree, trouble, add, p);
    AddsWhat(tree, trouble, add, Stub(p));
  }

  lemma MadeIsLibrary(tree: Tree<Bytes>, visits: seq<Comps>, trouble: Comps -> bool,
                      add: (Comps, Bytes) -> Option<Manifest>, lib: Tree<Manifest>)
    requires IsTree(tree) && WalkOf(tree, visits) && Addable(tree, trouble, add)
    requires MadeBy(lib, visits, AddPlan(tree, trouble, add))
    ensures LibraryOf(tree, add, lib)
  {
    hide AddPlan, WalkOf, MadeBy, Stub;
    var plan := AddPlan(tree, trouble, add);
    MadeExactly(tree, visits, plan, lib);
    forall p | p in tree
      ensures plan(p) == if tree[p].Dir? then MakeDir else Create(Stub(p), add(p, tree[p].content).value)
    {
      AddsWhat(tree, trouble, add, p);
    }
    forall p | p in tree && tree[p].File? && p != []
      ensures Stub(p) in lib && lib[Stub(p)] == File(add(p, tree[p].content).value)
    {
      assert Target(p, plan(p)) == Some(Stub(p));
    }
    forall q | q in lib
      ensures (lib[q].Dir? && q in tree && tree[q].Dir?)
              || (lib[q].File? && exists p | p in tree && tree[p].File? && p != [] :: Stub(p) == q)
    {
      if q != [] {
        var p :| p in tree && Target(p, plan(p)) == Some(q);
        if tree[p].File? { assert p != [] && Stub(p) == q; }
      }
    }
  }

  // ---------------------------------------------------------------- restoring a directory

  function Output(p: Comps): Comps
    requires p != []
  {
    Parent(p) + [R.StripStub(Last(p))]
  }

  /** The callback of `RestoreDirectory`: what is not a manifest is passed over. A name that is nothing but the
      extension, or dots before it, would mean a directory that exists. */
  function RestorePlan(lib: Tree<Manifest>, trouble: Comps -> bool,
                       restore: Comps -> Option<Bytes>): Comps -> Step<Bytes>
  {
    p =>
      if p !in lib then Ignore else if trouble(p) then Refuse
      else match lib[p]
        case Dir => MakeDir
        case Special => Refuse
        case File(_) =>
          if p == [] || !Pl.IsStubName(Last(p)) then Ignore
          else if !EntryName(R.StripStub(Last(p))) || restore(p).None? then Refuse
          else Create(Output(p), restore(p).value)
  }

  predicate IsManifest(lib: Tree<Manifest>, p: Comps) {
    p in lib && lib[p].File? && p != [] && Pl.IsStubName(Last(p))
  }

  predicate RestoresEntry(lib: Tree<Manifest>, trouble: Comps -> bool, restore: Comps -> Option<Bytes>, p: Comps)
    requires p in lib
  {
    && !trouble(p) && !lib[p].Special?
    && (IsManifest(lib, p) ==> EntryName(R.StripStub(Last(p))) && restore(p).Some?)
  }

  /** Nothing troublesome, no special entry, every manifest restores under a usable name, and no directory has it. */
  ghost predicate Restorable(lib: Tree<Manifest>, trouble: Comps -> bool, restore: Comps -> Option<Bytes>) {
    forall p | p in lib ::
      && RestoresEntry(lib, trouble, restore, p)
      && (IsManifest(lib, p) ==> !(Output(p) in lib && lib[Output(p)].Dir?))
  }

  /** The output's directories are the library's, and its files come from the library's manifests. */
  ghost predicate OutputOf(lib: Tree<Manifest>, restore: Comps -> Option<Bytes>, out: Tree<Bytes>) {
    && (forall p | p in lib && lib[p].Dir? :: p in out && out[p].Dir?)
    && (forall p | IsManifest(lib, p) ::
          restore(p).Some? && Output(p) in out && out[Output(p)] == File(restore(p).value))
    && (forall q | q in out ::
          || (out[q].Dir? && q in lib && lib[q].Dir?)
          || (out[q].File? && exists p | IsManifest(lib, p) :: Output(p) == q))
  }

  lemma OutputInjective(p: Comps, q: Comps)
    requires p != [] && q != [] && Pl.IsStubName(Last(p)) && Pl.IsStubName(Last(q)) && Output(p) == Output(q)
    ensures p == q
  {
    assert Parent(Output(p)) == Parent(p) && Parent(Output(q)) == Parent(q);
    assert Last(Output(p)) == R.StripStub(Last(p)) && Last(Output(q)) == R.StripStub(Last(q));
    assert Last(p) == R.StripStub(Last(p)) + Pl.STUB_EXTENSION && Last(q) == R.StripStub(Last(q)) + Pl.STUB_EXTENSION;
    assert p == Parent(p) + [Last(p)] && q == Parent(q) + [Last(q)];
  }

  /** `RestoreDirectory`. */
  method RestoreDirectory(source: Comps, output: Comps, taken: bool, lib: Tree<Manifest>, visits: seq<Comps>,
                          trouble: Comps -> bool, restore: Comps -> Option<Bytes>) returns (ok: bool, out: Tree<Bytes>)
    requires Names(source) && Names(output) && IsTree(lib) && WalkOf(lib, visits)
    ensures ok <==> !(source <= output) && !(output <= source) && !taken && Restorable(lib, trouble, restore)
    ensures ok ==> OutputOf(lib, restore, out)
    ensures ok <==> !(source <= output) && !(output <= source) && !taken && forall p | p in lib ::
                      && !trouble(p) && !lib[p].Special?
                      && (lib[p].File? ==> forall stem: string | Last(p) == stem + ".dstore" ::
                            && EntryName(stem) && restore(p).Some?
                            && !(Parent(p) + [stem] in lib && lib[Parent(p) + [stem]].Dir?))
  {
    RestorableMeans(lib, trouble, restore);
    WithinExactly(source, output);
    WithinExactly(output, source);
    if PathWithin(source, output) || PathWithin(output, source) { return false, map[]; }
    if taken { return false, map[]; }
    RestorableExactly(lib, visits, trouble, restore);
    ok, out := Walk(lib, visits, RestorePlan(lib, trouble, restore));
    if ok {
      assert visits[..|visits|] == visits;
      MadeIsOutput(lib, visits, trouble, restore, out);
    }
  }

  lemma RestorableMeans(lib: Tree<Manifest>, trouble: Comps -> bool, restore: Comps -> Option<Bytes>)
    requires IsTree(lib)
    ensures Restorable(lib, trouble, restore) <==> forall p | p in lib ::
              && !trouble(p) && !lib[p].Special?
              && (lib[p].File? ==> forall stem: string | Last(p) == stem + ".dstore" ::
                    && EntryName(stem) && restore(p).Some?
                    && !(Parent(p) + [stem] in lib && lib[Parent(p) + [stem]].Dir?))
  {
    forall p | p in lib && p != []
      ensures Pl.IsStubName(Last(p)) <==> exists stem: string :: Last(p) == stem + ".dstore"
      ensures forall stem: string | Last(p) == stem + ".dstore" ::
                Output(p) == Parent(p) + [stem] && R.StripStub(Last(p)) == stem
    {
      Pl.StubNames(Last(p));
    }
  }

  lemma RestoresWhat(lib: Tree<Manifest>, trouble: Comps -> bool, restore: Comps -> Option<Bytes>, p: Comps)
    requires p in lib
    ensures var step := RestorePlan(lib, trouble, restore)(p);
            if !RestoresEntry(lib, trouble, restore, p) then step == Refuse
            else if lib[p].Dir? then step == MakeDir
            else if IsManifest(lib, p) then step == Create(Output(p), restore(p).value)
            else step == Ignore
  {
  }

  lemma RestoreMirrors(lib: Tree<Manifest>, trouble: Comps -> bool, restore: Comps -> Option<Bytes>)
    ensures Mirrors(lib, RestorePlan(lib, trouble, restore))
  {
    hide RestorePlan, RestoresEntry;
    var plan := RestorePlan(lib, trouble, restore);
    forall p | p in lib
      ensures (plan(p).MakeDir? <==> lib[p].Dir? && !plan(p).Refuse?)
              && (plan(p).Create? ==> p != [] && plan(p).at != [] && Parent(plan(p).at) == Parent(p))
    {
      RestoresWhat(lib, trouble, restore, p);
    }
  }

  lemma RestoresApart(lib: Tree<Manifest>, trouble: Comps -> bool, restore: Comps -> Option<Bytes>, p: Comps, q: Comps)
    requires p in lib && q in lib && p != q && Restorable(lib, trouble, restore)
    requires Target(p, RestorePlan(lib, trouble, restore)(p)).Some?
    ensures var plan := RestorePlan(lib, trouble, restore); Target(p, plan(p)) != Target(q, plan(q))
  {
    hide RestorePlan, RestoresEntry, Output;
    RestoresWhat(lib, trouble, restore, p);
    RestoresWhat(lib, trouble, restore, q);
    if IsManifest(lib, p) && IsManifest(lib, q) && Output(p) == Output(q) { OutputInjective(p, q); }
  }

  lemma RestoresClash(lib: Tree<Manifest>, trouble: Comps -> bool, restore: Comps -> Option<Bytes>, p: Comps)
    requires IsManifest(lib, p) && Output(p) in lib && lib[Output(p)].Dir?
    requires RestoresEntry(lib, trouble, restore, p) && RestoresEntry(lib, trouble, restore, Output(p))
    ensures var plan := RestorePlan(lib, trouble, restore);
            p != Output(p) && Target(p, plan(p)) == Target(Output(p), plan(Output(p))) == Some(Output(p))
  {
    hide RestorePlan;
    RestoresWhat(lib, trouble, restore, p);
    RestoresWhat(lib, trouble, restore, Output(p));
  }

  lemma RestorableExactly(lib: Tree<Manifest>, visits: seq<Comps>, trouble: Comps -> bool,
                          restore: Comps -> Option<Bytes>)
    requires IsTree(lib) && WalkOf(lib, visits)
    ensures Mirrors(lib, RestorePlan(lib, trouble, restore))
    ensures Makeable(visits, RestorePlan(lib, trouble, restore)) <==> Restorable(lib, trouble, restore)
  {
    hide WalkOf, Makeable, RestorePlan, RestoresEntry, Output;
    var plan := RestorePlan(lib, trouble, restore);
    MakeableExactly(lib, visits, plan);
    forall p | p in lib
      ensures plan(p).Refuse? <==> !RestoresEntry(lib, trouble, restore, p)
    {
      RestoresWhat(lib, trouble, restore, p);
    }
    RestoreMirrors(lib, trouble, restore);
    forall p, q | p in lib && q in lib && p != q && Target(p, plan(p)).Some? && Restorable(lib, trouble, restore)
      ensures Target(p, plan(p)) != Target(q, plan(q))
    {
      RestoresApart(lib, trouble, restore, p, q);
    }
    if Makeable(visits, plan) {
      forall p | p in lib && IsManifest(lib, p) ensures !(Output(p) in lib && lib[Output(p)].Dir?) {
        if Output(p) in lib && lib[Output(p)].Dir? { RestoresClash(lib, trouble, restore, p); }
      }
    }
  }

  lemma MadeIsOutput(lib: Tree<Manifest>, visits: seq<Comps>, trouble: Comps -> bool, restore: Comps -> Option<Bytes>,
                     out: Tree<Bytes>)
    requires IsTree(lib) && WalkOf(lib, visits) && Restorable(lib, trouble, restore)
    requires MadeBy(out, visits, RestorePlan(lib, trouble, restore))
    ensures OutputOf(lib, restore, out)
  {
    hide RestorePlan, WalkOf, MadeBy, Output, EntryName;
    var plan := RestorePlan(lib, trouble, restore);
    MadeExactly(lib, visits, plan, out);
    forall p | p in lib
      ensures plan(p) == if lib[p].Dir? then MakeDir else if IsManifest(lib, p) then Create(Output(p), restore(p).value)
                                                          else Ignore
    {
      RestoresWhat(lib, trouble, restore, p);
    }
    forall p | IsManifest(lib, p)
      ensures restore(p).Some? && Output(p) in out && out[Output(p)] == File(restore(p).value)
    {
      assert RestoresEntry(lib, trouble, restore, p);
      assert Target(p, plan(p)) == Some(Output(p));
    }
    forall q | q in out
      ensures (out[q].Dir? && q in lib && lib[q].Dir?)
              || (out[q].File? && exists p | IsManifest(lib, p) :: Output(p) == q)
    {
      if q != [] {
        var p :| p in lib && Target(p, plan(p)) == Some(q);
        if IsManifest(lib, p) { assert Output(p) == q; }
      }
    }
  }

  // ---------------------------------------------------------------- there and back

  /** A library made from a tree is a tree of manifests. */
  lemma LibraryIsTree(tree: Tree<Bytes>, add: (Comps, Bytes) -> Option<Manifest>, lib: Tree<Manifest>)
    requires IsTree(tree) && LibraryOf(tree, add, lib)
    ensures IsTree(lib)
  {
    forall q | q in lib ensures InDirectory(lib, q) {
      if lib[q].Dir? {
        assert InDirectory(tree, q);
      } else {
        var p :| p in tree && tree[p].File? && p != [] && Stub(p) == q;
        assert InDirectory(tree, p);
        StubStrips(p);
        LongerName(Last(p));
      }
    }
  }

  lemma LongerName(name: string)
    requires EntryName(name)
    ensures EntryName(name + Pl.STUB_EXTENSION)
  {
  }

  /** Every manifest of a library stands for one file of the tree, and leads back to its path. */
  lemma ManifestOrigin(tree: Tree<Bytes>, add: (Comps, Bytes) -> Option<Manifest>, lib: Tree<Manifest>, q: Comps)
    returns (p: Comps)
    requires IsTree(tree) && LibraryOf(tree, add, lib) && q in lib && lib[q].File?
    ensures p in tree && tree[p].File? && p != [] && Stub(p) == q && IsManifest(lib, q) && Output(q) == p
            && EntryName(Last(p))
  {
    p :| p in tree && tree[p].File? && p != [] && Stub(p) == q;
    assert InDirectory(tree, p);
    StubStrips(p);
    assert p == Parent(p) + [Last(p)];
  }

  /** Each file's manifest, restored, gives the file's content or nothing. */
  ghost predicate Sound(tree: Tree<Bytes>, restore: Comps -> Option<Bytes>) {
    forall p | p in tree && tree[p].File? && p != [] :: restore(Stub(p)) in {None, Some(tree[p].content)}
  }

  /** The library restores exactly when every file does; no two files meet on the way back. */
  lemma LibraryRestorable(tree: Tree<Bytes>, add: (Comps, Bytes) -> Option<Manifest>, lib: Tree<Manifest>,
                          trouble: Comps -> bool, restore: Comps -> Option<Bytes>)
    requires IsTree(tree) && LibraryOf(tree, add, lib) && forall q | q in lib :: !trouble(q)
    ensures Restorable(lib, trouble, restore)
            <==> forall p | p in tree && tree[p].File? && p != [] :: restore(Stub(p)).Some?
  {
    hide Stub, Output, EntryName;
    if Restorable(lib, trouble, restore) {
      forall p | p in tree && tree[p].File? && p != [] ensures restore(Stub(p)).Some? {
        var o := ManifestOrigin(tree, add, lib, Stub(p));
        assert RestoresEntry(lib, trouble, restore, Stub(p));
      }
    }
    if forall p | p in tree && tree[p].File? && p != [] :: restore(Stub(p)).Some? {
      forall q | q in lib
        ensures RestoresEntry(lib, trouble, restore, q)
                && (IsManifest(lib, q) ==> !(Output(q) in lib && lib[Output(q)].Dir?))
      {
        if lib[q].File? {
          var p := ManifestOrigin(tree, add, lib, q);
          StubStrips(p);
        }
      }
    }
  }

  /** Restoring a library gives back the same tree: the same directories, empty and hidden ones too, and the same
      files with the same contents at the same paths. */
  lemma OutputIsTree(tree: Tree<Bytes>, add: (Comps, Bytes) -> Option<Manifest>, lib: Tree<Manifest>,
                     restore: Comps -> Option<Bytes>, out: Tree<Bytes>)
    requires IsTree(tree) && LibraryOf(tree, add, lib) && OutputOf(lib, restore, out) && Sound(tree, restore)
    requires forall p | p in tree :: !tree[p].Special?
    ensures out == tree
  {
    hide Stub, Output, EntryName;
    forall p | p in tree ensures p in out && out[p] == tree[p] {
      if tree[p].File? {
        FileIsBelow(tree, p);
        var o := ManifestOrigin(tree, add, lib, Stub(p));
        StubInjective(p, o);
      }
    }
    forall q | q in out ensures q in tree {
      if out[q].File? {
        var s :| IsManifest(lib, s) && Output(s) == q;
        var p := ManifestOrigin(tree, add, lib, s);
      }
    }
    hide *;
    assert forall p | p in tree :: p in out && out[p] == tree[p];
  }

  /** What `RestoreFile` yields for a manifest of the library, from the answers it gets. */
  function RestoreFrom(env: Env, lib: Tree<Manifest>, answers: Comps -> Sources): Comps -> Option<Bytes> {
    q => if q in lib && lib[q].File? && Acceptable(lib[q].content) then Restored(env, lib[q].content, answers(q))
         else None
  }

  /** The manifest of this file can be read, and enough genuine shards of it can be fetched. */
  ghost predicate Reachable(env: Env, m: Manifest, file: Bytes, src: Sources) {
    Genuine(env, m, file) && Acceptable(m) && forall i | 0 <= i < |m.chunks| :: ChunkReachable(env, m, file, src, i)
  }

  lemma FileComesBackExactly(env: Env, m: Manifest, file: Bytes, src: Sources)
    requires Lawful(env, LayoutOf(m)) && Genuine(env, m, file) && NoCollisions(env, m, file, src)
    ensures (if Acceptable(m) then Restored(env, m, src) else None) == if Reachable(env, m, file, src) then Some(file)
                                                                       else None
  {
    hide Lawful, NoCollisions, ChunkReachable, Restored, Acceptable;
    if Acceptable(m) { RestoreExactly(env, m, file, src); }
  }

  /** What `processFile` gave for each file: its own manifest, and no answer collides with its shards. */
  ghost predicate Captures(env: Env, tree: Tree<Bytes>, add: (Comps, Bytes) -> Option<Manifest>,
                           answers: Comps -> Sources)
  {
    forall p | p in tree && tree[p].File? && p != [] && add(p, tree[p].content).Some? ::
      var m := add(p, tree[p].content).value;
      Lawful(env, LayoutOf(m)) && Genuine(env, m, tree[p].content)
      && NoCollisions(env, m, tree[p].content, answers(Stub(p)))
  }

  lemma RestoreFromExactly(env: Env, tree: Tree<Bytes>, add: (Comps, Bytes) -> Option<Manifest>, lib: Tree<Manifest>,
                           answers: Comps -> Sources, p: Comps)
    requires LibraryOf(tree, add, lib) && Captures(env, tree, add, answers) && p in tree && tree[p].File? && p != []
    ensures RestoreFrom(env, lib, answers)(Stub(p)) ==
            if Reachable(env, add(p, tree[p].content).value, tree[p].content, answers(Stub(p)))
            then Some(tree[p].content) else None
  {
    hide Lawful, Genuine, NoCollisions, Reachable, Restored, Acceptable, Stub;
    FileComesBackExactly(env, add(p, tree[p].content).value, tree[p].content, answers(Stub(p)));
  }

  /** The round trip of a whole directory. From the library that a successful `AddPath` makes, `RestoreDirectory` into a
      new directory elsewhere succeeds exactly when every file's manifest is readable and its shards are within reach;
      and then the output is the tree that was added. */
  lemma TreeRoundTrip(env: Env, tree: Tree<Bytes>, addTrouble: Comps -> bool, add: (Comps, Bytes) -> Option<Manifest>,
                      lib: Tree<Manifest>, trouble: Comps -> bool, answers: Comps -> Sources)
    requires IsTree(tree) && Addable(tree, addTrouble, add) && LibraryOf(tree, add, lib)
             && Captures(env, tree, add, answers)
    requires forall q | q in lib :: !trouble(q)
    ensures IsTree(lib)
    ensures Restorable(lib, trouble, RestoreFrom(env, lib, answers)) <==>
            forall p | p in tree && tree[p].File? && p != [] ::
              add(p, tree[p].content).Some?
              && Reachable(env, add(p, tree[p].content).value, tree[p].content, answers(Stub(p)))
    ensures forall out | OutputOf(lib, RestoreFrom(env, lib, answers), out) :: out == tree
  {
    hide Captures, Reachable, Restorable, OutputOf, RestoreFrom, Stub;
    var restore := RestoreFrom(env, lib, answers);
    LibraryIsTree(tree, add, lib);
    forall p | p in tree && tree[p].File? && p != []
      ensures add(p, tree[p].content).Some?
      ensures restore(Stub(p)) == if Reachable(env, add(p, tree[p].content).value, tree[p].content, answers(Stub(p)))
                                  then Some(tree[p].content) else None
    {
      RestoreFromExactly(env, tree, add, lib, answers, p);
    }
    LibraryRestorable(tree, add, lib, trouble, restore);
    forall out | OutputOf(lib, restore, out) ensures out == tree {
      OutputIsTree(tree, add, lib, restore, out);
    }
  }
}
