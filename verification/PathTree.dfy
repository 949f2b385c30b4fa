module PathTrees {
  import opened Bytes
  import opened PathStrings
  import opened PathLookup

  class Node {
    const name: string
    var data: Option<int>
    var next: Node?
    var parent: Node?
    var child: Node?
    /** The components that lead here, and the children in list order. */
    ghost var path: Path
    ghost var kids: seq<Node>

    constructor (name: string, ghost path: Path)
      ensures this.name == name && this.path == path && data == None && kids == []
      ensures next == null && parent == null && child == null
    {
      this.name := name;
      this.path := path;
      data := None;
      next, parent, child := null, null, null;
      kids := [];
    }
  }

  ghost function At(s: seq<Node>, i: int): Node? {
    if 0 <= i < |s| then s[i] else null
  }

  /** A child list of `n`: linked through next, each child knowing its parent and its own path, no two
      of the same name. */
  ghost predicate Siblings(n: Node, ks: seq<Node>)
    reads n`path, ks`next, ks`parent, ks`path
  {
    && (forall i {:trigger ks[i].next} | 0 <= i < |ks| :: ks[i].next == At(ks, i + 1))
    && (forall i {:trigger ks[i].parent} | 0 <= i < |ks| :: ks[i].parent == n)
    && (forall i {:trigger ks[i].path} | 0 <= i < |ks| :: ks[i].path == n.path + [ks[i].name])
    && (forall i, j | 0 <= i < j < |ks| :: ks[i].name != ks[j].name)
  }

  ghost predicate ChildList(n: Node)
    reads n`child, n`kids, n`path, n.kids`next, n.kids`parent, n.kids`path
  {
    n.child == At(n.kids, 0) && Siblings(n, n.kids)
  }

  method PushFront(parent: Node, i: Node)
    requires parent != i
    modifies parent`child, parent`kids, i`next, i`parent
    ensures parent.child == i && i.next == old(parent.child) && i.parent == parent
    ensures parent.kids == [i] + old(parent.kids)
  {
    i.next := parent.child;
    parent.child := i;
    i.parent := parent;
    parent.kids := [i] + parent.kids;
  }

  /** Links the nodes around `n` to each other. */
  method CutOut(par: Node, prev: Node?, n: Node, ghost j: nat)
    requires j < |par.kids|
    modifies par`child, par`kids, (if prev == null then {} else {prev})`next
    ensures par.kids == old(par.kids)[..j] + old(par.kids)[j + 1..]
    ensures par.child == if prev == null then old(n.next) else old(par.child)
    ensures prev != null ==> prev.next == old(n.next)
  {
    if prev != null {
      prev.next := n.next;
    } else {
      par.child := n.next;
    }
    par.kids := par.kids[..j] + par.kids[j + 1..];
  }

  /** `m` is a copy of `n` whose children are the copies in `c`, in opposite order. */
  ghost predicate Twin(n: Node, m: Node, c: map<Path, Node>)
    reads n`data, n`path, n`kids, m`data, m`path, m`kids
  {
    && m.name == n.name && m.data == n.data && m.path == n.path
    && |m.kids| == |n.kids| && TwinKids(n, n.kids, m.kids, c)
  }

  ghost predicate TwinKids(n: Node, ks: seq<Node>, ms: seq<Node>, c: map<Path, Node>)
    requires |ms| == |ks|
    reads n`path
  {
    forall i | 0 <= i < |ks| :: var q := n.path + [ks[i].name]; q in c && ms[|ks| - 1 - i] == c[q]
  }

  lemma TwinMore(n: Node, m: Node, c: map<Path, Node>, d: map<Path, Node>)
    requires Twin(n, m, c) && c.Keys !! d.Keys
    ensures Twin(n, m, c + d) && Twin(n, m, d + c)
  {}

  lemma TwinKid(n: Node, m: Node, c: map<Path, Node>, i: nat)
    requires Twin(n, m, c) && i < |n.kids|
    ensures var q := n.path + [n.kids[i].name]; q in c && c[q] in m.kids
  {
    assert m.kids[|n.kids| - 1 - i] == c[n.path + [n.kids[i].name]];
  }

  lemma TwinKidsIn(n: Node, m: Node, c: map<Path, Node>)
    requires Twin(n, m, c)
    ensures forall k | k in m.kids :: k in c.Values
  {
    forall k | k in m.kids ensures k in c.Values {
      var i :| 0 <= i < |m.kids| && m.kids[i] == k;
      var i' := |m.kids| - 1 - i;
      assert m.kids[|n.kids| - 1 - i'] == c[n.path + [n.kids[i'].name]];
    }
  }

  lemma NoTwins(n: Node)
    ensures TwinKids(n, [], [], map[])
  {}

  lemma TwinKidsKept(n: Node, ks: seq<Node>, ms: seq<Node>, c: map<Path, Node>, d: map<Path, Node>)
    requires |ms| == |ks| && TwinKids(n, ks, ms, c) && c.Keys !! d.Keys
    ensures TwinKids(n, ks, ms, c + d)
  {}

  lemma TwinKidsMore(n: Node, j: nat, m: Node, ms: seq<Node>, c: map<Path, Node>, d: map<Path, Node>)
    requires j < |n.kids| && |ms| == j && TwinKids(n, n.kids[..j], ms, c) && c.Keys !! d.Keys
    requires var q := n.path + [n.kids[j].name]; q in d && d[q] == m
    ensures TwinKids(n, n.kids[..j + 1], [m] + ms, c + d)
  {}

  lemma TwinSays(n: Node, m: Node, c: map<Path, Node>)
    requires Twin(n, m, c)
    ensures m.name == n.name && m.path == n.path && m.data == n.data && (m.kids == [] <==> n.kids == [])
  {}

  /** A copy that is not in `c` has a name of its own among the copies already hung up. */
  lemma NewName(n: Node, j: nat, ms: seq<Node>, c: map<Path, Node>, top: Node, nn: Node)
    requires j <= |n.kids| && |ms| == j && TwinKids(n, n.kids[..j], ms, c)
    requires (forall q | q in c :: c[q].path == q) && nn.path !in c
    requires top.kids == ms && ChildList(top) && nn.path == top.path + [nn.name] && nn.parent != top
    ensures Siblings(top, ms) && top.child == At(ms, 0)
    ensures forall k | k in ms :: k.name != nn.name && k != nn
  {
    forall k | k in ms ensures k.name != nn.name {
      var i :| 0 <= i < |ms| && ms[i] == k;
      var i' := j - 1 - i;
      assert n.kids[..j][i'] == n.kids[i'] && ms[j - 1 - i'] == c[n.path + [n.kids[..j][i'].name]];
      assert k.path == top.path + [k.name];
    }
  }

  lemma NotAKid(m: Node, k: Node)
    requires ChildList(m) && k.parent != m
    ensures k !in m.kids
  {}

  twostate lemma SiblingsKept(n: Node)
    requires old(Siblings(n, n.kids)) && n.path == old(n.path)
    requires forall k | k in old(n.kids) :: k.next == old(k.next) && k.parent == old(k.parent) && k.path == old(k.path)
    ensures Siblings(n, old(n.kids))
  {}

  lemma AtWithout(ks: seq<Node>, j: nat, i: nat)
    requires j < |ks| && i < |ks|
    ensures At(ks[..j] + ks[j + 1..], i) == At(ks, if i < j then i else i + 1)
  {}

  twostate lemma NextWithout(n: Node, new j: nat, new i: nat)
    requires j < |old(n.kids)| && old(Siblings(n, n.kids)) && n.path == old(n.path)
    requires forall k | k in old(n.kids) ::
      && k.parent == old(k.parent) && k.path == old(k.path)
      && k.next == if j > 0 && k == old(n.kids)[j - 1] then At(old(n.kids), j + 1) else old(k.next)
    requires i < |old(n.kids)|
    ensures var ks := old(n.kids); ks[i].next == At(ks, if j > 0 && i == j - 1 then j + 1 else i + 1)
  {
    var ks := old(n.kids);
    assert old(ks[i].next) == At(ks, i + 1);
    assert j > 0 && ks[i] == ks[j - 1] ==> ks[i].name == ks[j - 1].name;
  }

  twostate lemma SiblingsWithout(n: Node, new j: nat)
    requires j < |old(n.kids)| && old(Siblings(n, n.kids)) && n.path == old(n.path)
    requires forall k | k in old(n.kids) ::
      && k.parent == old(k.parent) && k.path == old(k.path)
      && k.next == if j > 0 && k == old(n.kids)[j - 1] then At(old(n.kids), j + 1) else old(k.next)
    ensures var ks := old(n.kids); Siblings(n, ks[..j] + ks[j + 1..])
  {
    hide At;
    var ks := old(n.kids);
    var r := ks[..j] + ks[j + 1..];
    forall i | 0 <= i < |r| ensures r[i].next == At(r, i + 1) {
      var i' := if i < j then i else i + 1;
      assert r[i] == ks[i'];
      NextWithout(n, j, i');
      AtWithout(ks, j, i + 1);
    }
  }

  lemma KeptElement(ks: seq<Node>, i: nat, j: nat)
    requires i < |ks| && j < |ks| && i != j
    ensures ks[i] in ks[..j] + ks[j + 1..]
  {
    var r := ks[..j] + ks[j + 1..];
    assert ks[i] == if i < j then r[i] else r[i - 1];
  }

  lemma MoreValues(m: map<Path, Node>, p: Path, i: Node)
    requires p !in m
    ensures m[p := i].Values == m.Values + {i}
  {
    forall n | n in m.Values ensures n in m[p := i].Values {
      var q :| q in m && m[q] == n;
      assert m[p := i][q] == n;
    }
    assert m[p := i][p] == i;
  }

  lemma ListFrom(n: Node)
    requires n.child == At(n.kids, 0) && (n.kids == [] || Siblings(n, n.kids))
    ensures ChildList(n)
  {}

  lemma ConsSibling(n: Node, i: Node, ks: seq<Node>)
    requires Siblings(n, ks) && i.next == At(ks, 0) && i.parent == n && i.path == n.path + [i.name]
    requires forall k | k in ks :: k.name != i.name
    ensures Siblings(n, [i] + ks)
  {}

  ghost predicate HasParents(c: map<Path, Node>)
    reads c.Values`kids
  {
    forall p | p in c && p != [] :: p[..|p| - 1] in c && c[p] in c[p[..|p| - 1]].kids
  }

  class PathTree {
    var root: Node?
    /** Every node, under its path. */
    ghost var at: map<Path, Node>

    /** Nodes are registered under their own paths, together with all their children. */
    ghost predicate Registered()
      reads this`at, at.Values`path, at.Values`kids
    {
      && (forall p | p in at :: at[p].path == p)
      && (forall p, k | p in at && k in at[p].kids :: k in at.Values)
    }

    /** Every node but the root is a child of the node one component shorter. */
    ghost predicate Parented()
      reads this`at, at.Values`kids
    {
      HasParents(at)
    }

    ghost predicate Rooted()
      reads this, (if root == null then {} else {root})`parent
    {
      && (root == null <==> [] !in at) && (forall p | p in at :: root != null)
      && (root != null ==> at[[]] == root && (root.parent == root || root.parent == null))
    }

    ghost predicate Valid()
      reads this, at.Values`path, at.Values`kids, at.Values`child, at.Values`next, at.Values`parent
      reads (if root == null then {} else {root})`parent
    {
      && Rooted()
      && Registered() && Parented()
      && forall p | p in at :: ChildList(at[p])
    }

    /** The map from paths to data that the tree stands for. */
    ghost function Bindings(): map<Path, int>
      reads this`at, at.Values`data
    {
      map p | p in at && at[p].data.Some? :: at[p].data.value
    }

    /** Only nodes that are needed: every leaf carries data. */
    ghost predicate Pruned()
      reads this`at, at.Values`kids, at.Values`data
    {
      forall p | p in at :: at[p].kids != [] || at[p].data.Some?
    }

    /** The root is its own parent; a cloned root has none. */
    ghost predicate RootLoops()
      reads this`root, (if root == null then {} else {root})`parent
    {
      root != null ==> root.parent == root
    }

    /** `b` is the map the tree stands for. */
    ghost predicate Stands(b: map<Path, int>)
      reads this`at, at.Values`data
    {
      && (forall p | p in b :: p in at)
      && (forall p | p in at :: at[p].data == if p in b then Some(b[p]) else None)
    }

    lemma BindingsStand()
      ensures Stands(Bindings())
    {}

    lemma StandsUnique(b: map<Path, int>)
      requires Stands(b)
      ensures Bindings() == b
    {}

    constructor ()
      ensures Valid() && Pruned() && at == map[] && RootLoops()
    {
      root := null;
      at := map[];
    }

    // ----- lookup of one component -----

    /** A child of the given name is registered exactly under the extended path. */
    lemma ChildRegistered(p: Path, i: nat)
      requires Valid() && p in at && i < |at[p].kids|
      ensures var k := at[p].kids[i]; p + [k.name] in at && at[p + [k.name]] == k
    {
      var k := at[p].kids[i];
      assert k in at.Values;
      var q :| q in at && at[q] == k;
      assert at[p].kids[i].path == p + [k.name];
    }

    /** Whatever is registered one component further is in the child list. */
    lemma RegisteredChild(p: Path, name: string) returns (i: nat)
      requires Valid() && p in at && p + [name] in at
      ensures i < |at[p].kids| && at[p].kids[i] == at[p + [name]] && at[p].kids[i].name == name
    {
      var q := p + [name];
      assert q[..|q| - 1] == p;
      i :| 0 <= i < |at[p].kids| && at[p].kids[i] == at[q];
      assert at[p].kids[i].path == p + [at[p].kids[i].name];
      assert q[|q| - 1] == name;
    }

    lemma ListOf(p: Path)
      requires Valid() && p in at
      ensures ChildList(at[p]) && at[p].child == At(at[p].kids, 0) && Siblings(at[p], at[p].kids)
    {}

    lemma Parts()
      requires Valid()
      ensures Rooted() && Registered() && Parented() && (forall p | p in at :: at[p].path == p && ChildList(at[p]))
    {}

    lemma Whole()
      requires Rooted() && Registered() && Parented() && forall p | p in at :: ChildList(at[p])
      ensures Valid()
    {}
    /** findAt. */
    method FindAt(n: Node, name: string, ghost p: Path) returns (r: Node?)
      requires Valid() && p in at && at[p] == n
      ensures r == if p + [name] in at then at[p + [name]] else null
    {
      hide Valid;
      ListOf(p);
      r := n.child;
      ghost var i := 0;
      while r != null
        invariant 0 <= i <= |n.kids| && r == At(n.kids, i)
        invariant forall j | 0 <= j < i :: n.kids[j].name != name
        decreases |n.kids| - i
      {
        if r.name == name {
          ChildRegistered(p, i);
          return;
        }
        assert n.kids[i].next == At(n.kids, i + 1);
        r := r.next;
        i := i + 1;
      }
      if p + [name] in at { var _ := RegisteredChild(p, name); }
    }

    lemma ParentOf(p: Path)
      requires Valid() && p in at && p != []
      ensures Up(p, 1) in at && at[p].parent == at[Up(p, 1)]
    {
      var q := Up(p, 1);
      assert at[p] in at[q].kids;
      var i :| 0 <= i < |at[q].kids| && at[q].kids[i] == at[p];
      assert at[q].kids[i].parent == at[q];
    }

    lemma OneUp(p: Path)
      requires Valid() && p in at && (RootLoops() || p != [])
      ensures Up(p, 1) in at && at[p].parent == at[Up(p, 1)]
    {
      if p != [] { ParentOf(p); }
    }

    /** Only a cloned root has no parent. */
    lemma NoParent(p: Path)
      requires Valid() && p in at
      ensures at[p].parent == null <==> p == [] && !RootLoops()
    {
      if p != [] { ParentOf(p); }
    }

    /** The node k levels above the one at `p`, or null one level above a root without parent. */
    ghost function Above(p: Path, k: nat): Node?
      requires Up(p, k) in at
      reads this, (if root == null then {} else {root})`parent
    {
      if RootLoops() || k <= |p| then at[Up(p, k)] else null
    }

    /** One more ".." leads one level up. */
    lemma ClimbsOn(p: Path, k: nat)
      requires Valid() && Up(p, k) in at && (RootLoops() || k <= |p|)
      ensures Up(p, k + 1) in at && at[Up(p, k)].parent == Above(p, k + 1)
    {
      hide Valid;
      assert Up(Up(p, k), 1) == Up(p, k + 1);
      if RootLoops() || k < |p| {
        OneUp(Up(p, k));
      } else {
        assert Up(p, k) == [] == Up(p, k + 1);
        NoParent([]);
      }
    }

    /** toNext: skips slashes, "." and "..", climbing for the latter, up to the next real component.  It
        crashes if it climbs more than one level above a root without parent. */
    method ToNext(s: string, n: Node, ghost p: Path)
      returns (r: string, n': Node?, len: nat, ghost k: nat, crashed: bool)
      requires Valid() && p in at && at[p] == n
      ensures crashed <==> !RootLoops() && LeadingDots(Comps(s)) > |p| + 1
      ensures |r| <= |s|
      ensures !crashed ==> Comps(s) == Dots(k) + Comps(r) && k == LeadingDots(Comps(s))
      ensures !crashed && len == 0 ==> r == ""
      ensures !crashed && len > 0 ==>
        len <= |r| && r[..len] != ".." && Comps(r) == [r[..len]] + Comps(r[len..])
      ensures !crashed ==> Up(p, k) in at && n' == Above(p, k)
    {
      hide Valid, Comps, Dots, CompLen, RootLoops, Up, LeadingDots;
      r, n', k, crashed := s, n, 0, false;
      NoDots(Comps(r));
      UpNone(p);
      while true
        invariant Comps(s) == Dots(k) + Comps(r) && |r| <= |s|
        invariant Up(p, k) in at && n' == Above(p, k) && (RootLoops() || k <= |p| + 1)
        decreases |r|
      {
        r := SkipSlashes(r);
        if r == "" {
          CompsNil();
          OnlyDots(k);
          return r, n', 0, k, false;
        }
        var pos := CompLen(r);
        CompCases(r);
        if pos == 1 && r[0] == '.' {
          r := r[1..];
        } else if pos == 2 && r[0] == '.' && r[1] == '.' {
          MoreDots(Comps(s), k, Comps(r[2..]));
          if n' == null {
            DotsAtLeast(k + 1, Comps(r[2..]));
            return r, n', 0, k, true;
          }
          ClimbsOn(p, k);
          n' := n'.parent;
          r := r[2..];
          k := k + 1;
        } else {
          DotsThen(k, r[..pos], Comps(r[pos..]));
          return r, n', pos, k, false;
        }
      }
    }

    ghost function Bound(): set<Path>
      reads this`at, at.Values`data
    {
      set p | p in at && at[p].data.Some?
    }

    /** A match node with the path string left from it, against the abstract match. */
    ghost predicate Matches(b: Match, node: Node?, mpath: string)
      reads this`at
    {
      match b
      case NoMatch => node == null
      case Match(m, left) => m in at && node == at[m] && Comps(mpath) == left
    }

    ghost function NextBest(q: Path, rest: string, best: Match): Match
      reads this`at, at.Values`data
    {
      Best(at.Keys, Bound(), q, Comps(rest), if q in Bound() then Match(q, Comps(rest)) else best)
    }

    /** One round of find: climbs over "..", then goes down one component if it can. */
    method Descend(rest: string, n: Node, ghost p: Path)
      returns (rest': string, last: Node?, child: Node?, len: nat, ghost q: Path, crashed: bool)
      requires Valid() && p in at && at[p] == n
      ensures crashed <==> !RootLoops() && Slips(|p|, Comps(rest))
      ensures !crashed ==> (len == 0 <==> AllDots(Comps(rest)))
      ensures !crashed && len == 0 ==> rest' == "" && child == null
      ensures !crashed && len > 0 ==> q in at
      ensures !crashed && len > 0 && child == null ==>
        && last == at[q] && rest' != "" && !AllDots(Comps(rest'))
        && Walk(at.Keys, p, Comps(rest)) == Walked(q, Comps(rest'))
        && (!RootLoops() ==> !Falls(at.Keys, p, Comps(rest)))
      ensures !crashed && len > 0 && child != null ==>
        && child == at[q] && Walk(at.Keys, p, Comps(rest)) == Walk(at.Keys, q, Comps(rest'))
        && (!RootLoops() ==> (Falls(at.Keys, p, Comps(rest)) <==> Falls(at.Keys, q, Comps(rest'))))
      ensures !crashed && len > 0 && child == null ==>
        forall best :: Best(at.Keys, Bound(), p, Comps(rest), best) == best
      ensures !crashed && len > 0 && child != null ==>
        forall best :: Best(at.Keys, Bound(), p, Comps(rest), best) == NextBest(q, rest', best)
      ensures |rest'| <= |rest| && (!crashed && child != null ==> |rest'| < |rest|)
      ensures !crashed && Plain(rest) ==> Plain(rest')
    {
      hide Valid, Comps, Bound, LeadingDots, Dots, RootLoops;
      var r;
      ghost var k;
      r, last, len, k, crashed := ToNext(rest, n, p);
      rest', child, q := r, null, p;
      if crashed {
        DotsFew(Comps(rest));
        return;
      }
      if len == 0 {
        CompsNil();
        OnlyDots(k);
      } else {
        var c := r[..len];
        DotsThen(k, c, Comps(r[len..]));
        if last == null {
          crashed := true;
          return;
        }
        child := FindAt(last, c, Up(p, k));
        if child != null {
          q := Up(p, k) + [c];
          rest' := r[len..];
        } else {
          q := Up(p, k);
          NotAllDots(c, Comps(r[len..]));
        }
      }
    }

    /** What the internal find reports about a tree with a root. */
    ghost predicate Found(path: string, pathToMatch: bool, found: Node?, last: Node?, rest: string)
      reads this`at, at.Values`data
    {
      var w := Walk(at.Keys, [], Comps(path));
      var b := Lookup(at.Keys, Bound(), Comps(path));
      && w.q in at && last == at[w.q]
      && (if b.NoMatch? then found == null else b.m in at && found == at[b.m])
      && (!pathToMatch || b.NoMatch? ==>
            && (rest == "" <==> AllDots(w.rest))
            && (rest != "" ==> Comps(rest) == w.rest && (Plain(path) ==> Plain(rest))))
      && (pathToMatch && b.Match? ==> Comps(rest) == Remaining(w, b))
    }

    /** The internal find. */
    method FindNode(path: string, pathToMatch: bool)
      returns (found: Node?, last: Node?, rest: string, crashed: bool)
      requires Valid()
      ensures crashed <==> !RootLoops() && Falls(at.Keys, [], Comps(path))
      ensures root == null ==> found == null && last == null && rest == path
      ensures root != null && !crashed ==> Found(path, pathToMatch, found, last, rest)
    {
      hide Valid, Comps, Bound, LeadingDots, Walk, Best, Falls, Slips;
      rest, last, found, crashed := path, null, null, false;
      if root == null { return; }
      RootAt();
      BoundAt([]);
      var n: Node? := root;
      ghost var p: Path := [];
      ghost var keys, bound, cs := at.Keys, Bound(), Comps(path);
      ghost var best := if [] in bound then Match([], cs) else NoMatch;
      found := if n.data.Some? then n else null;
      var mpath := path;
      while n != null
        invariant n != null ==> p in at && n == at[p] && (Plain(path) ==> Plain(rest))
        invariant !RootLoops() ==>
          (Falls(keys, [], cs) <==> n != null && Falls(keys, p, Comps(rest)))
        invariant Walk(keys, [], cs) == if n == null then Walked(p, Comps(rest)) else Walk(keys, p, Comps(rest))
        invariant Lookup(keys, bound, cs) == if n == null then best else Best(keys, bound, p, Comps(rest), best)
        invariant Matches(best, found, mpath)
        invariant n == null ==> p in at && last == at[p] && rest != "" && !AllDots(Comps(rest))
        invariant n == null ==> (Plain(path) ==> Plain(rest))
        decreases n != null, |rest|
      {
        last := n;
        ghost var before := rest;
        var climbed, len;
        ghost var q;
        rest, climbed, n, len, q, crashed := Descend(rest, n, p);
        FallsOnly(keys, p, Comps(before));
        if crashed { return; }
        if len == 0 {
          WalkEnds(keys, bound, p, Comps(before), best);
          CompsNil();
          if last == found {
            SameNode(p, best.m);
            return;
          }
          break;
        }
        last := climbed;
        assert Bound() == bound;
        assert Best(keys, bound, p, Comps(before), best) == if n == null then best else NextBest(q, rest, best);
        p := q;
        if n != null {
          BoundAt(q);
          if n.data.Some? {
            found, mpath := n, rest;
            best := Match(q, Comps(rest));
          }
        }
      }
      if found != null && pathToMatch {
        rest := SkipSlashes(mpath);
      }
    }

    lemma RootAt()
      requires Valid()
      ensures ([] in at <==> root != null) && (root != null ==> at[[]] == root)
      ensures root != null ==> root.parent == root || root.parent == null
    {}

    lemma BoundAt(p: Path)
      requires p in at
      ensures p in Bound() <==> at[p].data.Some?
    {}

    lemma SameNode(p: Path, q: Path)
      requires Valid() && p in at && q in at && at[p] == at[q]
      ensures p == q
    {}

    lemma Closed()
      requires Valid()
      ensures PrefixClosed(at.Keys) && Bound() <= at.Keys && Bound() == Bindings().Keys
      ensures root == null ==> at == map[]
    {}

    /** The public find: on plain paths the longest prefix with data, and the components behind it. */
    method Find(path: string) returns (found: Node?, end: string, crashed: bool)
      requires Valid()
      ensures crashed <==> !RootLoops() && Falls(at.Keys, [], Comps(path))
      ensures Plain(path) ==> !crashed
      ensures root == null ==> found == null && end == path
      ensures root != null && !crashed ==>
        var cs := Comps(path);
        var b := Lookup(at.Keys, Bindings().Keys, cs);
        && (found == null <==> b.NoMatch?)
        && (b.Match? ==> b.m in at && found == at[b.m] && Comps(end) == Remaining(Walk(at.Keys, [], cs), b))
      ensures Plain(path) ==>
        forall k | 0 <= k <= |Comps(path)| && Comps(path)[..k] in Bindings() :: found != null && k <= |found.path|
      ensures Plain(path) && found != null ==>
        found.path in Bindings() && at[found.path] == found && found.path + Comps(end) == Comps(path)
    {
      hide Valid, Comps, Bound, Walk, Best, Lookup, AllDots, Falls;
      var last;
      if Plain(path) { PlainNeverFalls(at.Keys, [], Comps(path)); }
      found, last, end, crashed := FindNode(path, true);
      Closed();
      if root != null {
        RootAt();
        if Plain(path) {
          LookupIsLongest(at.Keys, Bound(), Comps(path));
          ghost var b := Lookup(at.Keys, Bound(), Comps(path));
          if b.Match? { PathOf(b.m); }
        }
      }
    }

    lemma PathOf(p: Path)
      requires Valid() && p in at
      ensures at[p].path == p
    {}

    // ----- insert -----

    /** Every leaf carries data, except perhaps the one at `p`. */
    ghost predicate PrunedBut(p: Path)
      reads this`at, at.Values`kids, at.Values`data
    {
      forall q | q in at && q != p :: at[q].kids != [] || at[q].data.Some?
    }

    /** Registered nodes keep everything but the child list of `but`. */
    twostate predicate KeptBut(but: Node)
      reads *
    {
      forall n | n in old(at).Values ::
        && n.path == old(n.path) && n.next == old(n.next) && n.parent == old(n.parent) && n.data == old(n.data)
        && (n != but ==> n.child == old(n.child) && n.kids == old(n.kids))
    }

    /** A new first child of the node at `p`. */
    twostate predicate Added(p: Path, new i: Node)
      requires p in old(at)
      reads *
    {
      var n := old(at)[p];
      && i !in old(at).Values && i.path !in old(at) && at == old(at)[i.path := i] && root == old(root)
      && i.path == p + [i.name] && i.data == None && i.child == null && i.kids == [] && i.parent == n
      && i.next == old(n.child) && n.child == i && n.kids == [i] + old(n.kids)
      && KeptBut(n)
    }

    twostate lemma AddedNewName(p: Path, new i: Node)
      requires old(Valid()) && p in old(at) && Added(p, i)
      ensures forall k | k in old(at[p].kids) :: k.name != i.name
    {
      hide Rooted, Parented;
      var ks := old(at[p].kids);
      forall k | k in ks ensures k.name != i.name {
        assert k in old(at).Values;
        var q :| q in old(at) && old(at)[q] == k;
        var j :| 0 <= j < |ks| && ks[j] == k;
        assert old(ks[j].path) == p + [k.name];
      }
    }

    twostate lemma AddedLists(p: Path, new i: Node, new q: Path)
      requires old(Valid()) && p in old(at) && Added(p, i) && q in old(at)
      ensures ChildList(at[q])
    {
      hide Rooted, Parented, Siblings;
      var n := old(at)[q];
      assert old(ChildList(n));
      SiblingsKept(n);
      if q == p {
        AddedNewName(p, i);
        ConsSibling(n, i, old(n.kids));
      }
    }

    twostate lemma AddedRegistered(p: Path, new i: Node)
      requires old(Valid()) && p in old(at) && Added(p, i)
      ensures Registered()
    {
      hide Rooted, Parented, ChildList;
      MoreValues(old(at), i.path, i);
    }

    twostate lemma AddedParented(p: Path, new i: Node)
      requires old(Valid()) && p in old(at) && Added(p, i)
      ensures Parented()
    {
      hide Rooted, Registered, ChildList;
    }

    twostate lemma BindingsKept()
      requires forall p | p in old(at) :: p in at && old(at)[p] == at[p] && at[p].data == old(at[p].data)
      requires forall p | p in at && p !in old(at) :: at[p].data == None
      ensures Bindings() == old(Bindings())
    {}

    twostate lemma AddedValid(p: Path, new i: Node)
      requires old(Valid()) && p in old(at) && Added(p, i)
      ensures Valid() && Bindings() == old(Bindings())
      ensures forall q | q in old(at) && q != p :: old(at)[q] != old(at)[p]
    {
      hide Parented, ChildList, Bindings;
      BindingsKept();
      AddedRegistered(p, i);
      AddedParented(p, i);
      forall q | q in at ensures ChildList(at[q]) {
        if q in old(at) { AddedLists(p, i, q); } else { ListFrom(i); }
      }
    }

    /** Puts a new node at the front of a child list. */
    method AddChild(parent: Node, name: string, ghost p: Path) returns (i: Node)
      requires Valid() && p in at && at[p] == parent && p + [name] !in at
      modifies this`at, parent`child, parent`kids
      ensures Valid() && fresh(i) && i.data == None && at == old(at)[p + [name] := i]
      ensures Bindings() == old(Bindings())
      ensures forall q | q in old(at) :: at[q].data == old(at[q].data)
      ensures forall q | q in old(at) && q != p :: at[q].kids == old(at[q].kids)
      ensures parent.kids == [i] + old(parent.kids)
    {
      hide Valid, ChildList, Siblings, Registered, Bindings, Rooted, At;
      i := new Node(name, p + [name]);
      PushFront(parent, i);
      at := at[p + [name] := i];
      assert Added(p, i);
      AddedValid(p, i);
    }

    /** One round of insert: to the next component's node, which is created if it is missing. */
    method Extend(pathend: string, last: Node, ghost p: Path)
      returns (rest: string, last': Node, more: bool, ghost p': Path, crashed: bool)
      requires Valid() && p in at && at[p] == last
      modifies this`at, at.Values`child, at.Values`kids
      ensures Valid() && p' in at && at[p'] == last'
      ensures crashed ==> !RootLoops() && !Stays(|p|, Comps(pathend))
      ensures !crashed && !RootLoops() ==> (Stays(|p|, Comps(pathend)) <==> Stays(|p'|, Comps(rest)))
      ensures !crashed ==> Norm(p', Comps(rest)) == Norm(p, Comps(pathend))
      ensures !crashed ==> Reached(at.Keys, p', Comps(rest)) == Reached(old(at.Keys), p, Comps(pathend))
      ensures |rest| <= |pathend|
      ensures !crashed ==> if more then |rest| < |pathend| else Comps(rest) == []
      ensures !crashed && Plain(pathend) ==> Plain(rest) && p <= p'
      ensures Bindings() == old(Bindings()) && old(at.Keys) <= at.Keys
      ensures at == old(at) || (p' !in old(at) && at == old(at)[p' := last'] && fresh(last'))
    {
      hide Valid, Comps, Norm, Dots, Bindings, PrefixClosed, Stays, LeadingDots, RootLoops, Visited;
      var len, n;
      ghost var k;
      rest, n, len, k, crashed := ToNext(pathend, last, p);
      StaysFrom(|p|, Comps(pathend));
      last', more, p' := last, false, p;
      if crashed || n == null {
        crashed := true;
        return;
      }
      last' := n;
      NormDots(p, k, Comps(rest));
      VisitedDots(p, k, Comps(rest));
      p' := Up(p, k);
      PlainTail(k, Comps(rest));
      more := len > 0;
      if !more {
        CompsNil();
        OnlyDots(k);
        StaysNil(|p'|);
        return;
      }
      var c := rest[..len];
      DotsThen(k, c, Comps(rest[len..]));
      NormCons(p', c, Comps(rest[len..]));
      VisitedNext(p', c, Comps(rest[len..]));
      var i := FindAt(last', c, p');
      if i == null {
        i := AddChild(last', c, p');
      } else {
        ghost var j := RegisteredChild(p', c);
      }
      last' := i;
      p' := p' + [c];
      rest := rest[len..];
    }

    /** Where insert starts: at the last node that find reached, or at a new root. */
    method Start(path: string) returns (pathend: string, last: Node?, ghost p: Path, crashed: bool)
      requires Valid()
      modifies this
      ensures Valid() && (old(RootLoops()) ==> RootLoops())
      ensures crashed <==> !old(RootLoops()) && Falls(old(at.Keys), [], Comps(path))
      ensures crashed ==> at == old(at)
      ensures at == old(at) || (old(at) == map[] && last != null && fresh(last) && at == map[[] := last])
      ensures !crashed ==> p in at && last == at[p]
      ensures Bindings() == old(Bindings())
      ensures !crashed ==>
        Addressed(old(at.Keys), Comps(path)) == Norm(p, if pathend == "" then [] else Comps(pathend))
      ensures !crashed && !old(RootLoops()) ==>
        var w := Walk(old(at.Keys), [], Comps(path));
        !RootLoops() && p == w.q && if AllDots(w.rest) then pathend == "" else Comps(pathend) == w.rest
      ensures !crashed ==>
        Reached(at.Keys, p, if pathend == "" then [] else Comps(pathend))
        == Reached(old(at.Keys) + {[]}, [], Comps(path))
      ensures !crashed && Plain(path) ==> Plain(pathend)
    {
      hide Valid, Comps, Bound, Walk, Norm, AllDots, Bindings, Lookup, Falls, Visited;
      WalkVisited(at.Keys, [], Comps(path));
      VisitedNext(Walk(at.Keys, [], Comps(path)).q, "", []);
      VisitedNext([], "", []);
      RootAt();
      Closed();
      CompsNil();
      p := Walk(at.Keys, [], Comps(path)).q;
      NormNil(p);
      var found, l, rest;
      found, l, rest, crashed := FindNode(path, false);
      pathend, last := rest, l;
      if crashed { return; }
      if l == null {
        assert at.Keys == {};
        EmptyAddressed(Comps(path));
        last := NewRoot();
        p := [];
      }
    }

    /** The loop of insert: creates the missing path elements. */
    method Grow(path: string, start: Node, ghost p0: Path) returns (last: Node, ghost p: Path, crashed: bool)
      requires Valid() && p0 in at && start == at[p0]
      modifies this`at, at.Values`child, at.Values`kids
      ensures Valid() && p in at && last == at[p]
      ensures crashed <==> !RootLoops() && !Stays(|p0|, Comps(path))
      ensures !crashed ==> p == Norm(p0, if path == "" then [] else Comps(path))
      ensures Bindings() == old(Bindings()) && old(at.Keys) <= at.Keys
      ensures !crashed ==> at.Keys == Reached(old(at.Keys), p0, if path == "" then [] else Comps(path))
      ensures !crashed && Plain(path) ==> at == old(at) || p !in old(at)
      ensures fresh(at.Values - old(at.Values))
    {
      hide Valid, Comps, Norm, Bindings, Plain, PrefixClosed, RootLoops, Stays, Reached;
      ghost var keys := at.Keys;
      Closed();
      CompsNil();
      var pathend := path;
      last, p, crashed := start, p0, false;
      var more := true;
      while pathend != "" && more
        invariant Valid() && p in at && last == at[p]
        invariant !RootLoops() ==> (Stays(|p0|, Comps(path)) <==> Stays(|p|, Comps(pathend)))
        invariant fresh(at.Values - old(at.Values))
        invariant Bindings() == old(Bindings()) && keys <= at.Keys
        invariant Norm(p0, if path == "" then [] else Comps(path))
               == Norm(p, if pathend == "" then [] else Comps(pathend))
        invariant Reached(at.Keys, p, if pathend == "" then [] else Comps(pathend))
               == Reached(keys, p0, if path == "" then [] else Comps(path))
        invariant !more ==> Comps(pathend) == []
        invariant Plain(path) ==> Plain(pathend) && p0 <= p && (at == old(at) || p !in keys)
        decreases |pathend|, more
      {
        ghost var was := p;
        pathend, last, more, p, crashed := Extend(pathend, last, p);
        if crashed { return; }
        if was <= p && p in keys { PrefixIn(keys, p, was); }
      }
      NormNil(p);
      StaysNil(|p|);
      ReachedAll(at.Keys, p);
    }

    /** insert up to the node that the path addresses, which is created if it is missing. */
    method Reach(path: string) returns (last: Node?, ghost p: Path, crashed: bool)
      requires Valid()
      modifies this, at.Values`child, at.Values`kids
      ensures Valid() && (old(RootLoops()) ==> RootLoops())
      ensures crashed <==> !old(RootLoops()) && InsertFalls(old(at.Keys), Comps(path))
      ensures Bindings() == old(Bindings()) && old(at.Keys) <= at.Keys
      ensures fresh(at.Values - old(at.Values))
      ensures !crashed ==>
        && p in at && last == at[p] && p == Addressed(old(at.Keys), Comps(path))
        && at.Keys == Reached(old(at.Keys) + {[]}, [], Comps(path))
        && (Plain(path) ==> at == old(at) || p !in old(at))
    {
      hide Valid, Comps, Norm, Bindings, Addressed, RootLoops, Falls, Stays, AllDots, Walk, Reached;
      CompsNil();
      var pathend, start;
      pathend, start, p, crashed := Start(path);
      last := start;
      if crashed { return; }
      StaysNil(|p|);
      last, p, crashed := Grow(pathend, start, p);
    }

    /** insert: 0 is a map update, -EEXIST exactly when the addressed path is bound already. */
    method Insert(path: string, data: Option<int>) returns (r: int, crashed: bool)
      requires Valid()
      modifies this, at.Values
      ensures Valid() && (old(RootLoops()) ==> RootLoops())
      ensures crashed <==> !old(RootLoops()) && InsertFalls(old(at.Keys), Comps(path))
      ensures Plain(path) ==> !crashed
      ensures !crashed ==> r == if Addressed(old(at.Keys), Comps(path)) in old(Bindings()) then -EEXIST else 0
      ensures crashed || r != 0 || data.None? ==> Bindings() == old(Bindings())
      ensures !crashed && r == 0 && data.Some? ==>
        Bindings() == old(Bindings())[Addressed(old(at.Keys), Comps(path)) := data.value]
      ensures old(at.Keys) <= at.Keys
      ensures !crashed ==> at.Keys == Reached(old(at.Keys) + {[]}, [], Comps(path))
      ensures !crashed && (data.Some? || r != 0) && old(Pruned()) ==>
        (Pruned() <==> OnTheWay(old(at.Keys), at.Keys, Addressed(old(at.Keys), Comps(path))))
      ensures Plain(path) ==> Addressed(old(at.Keys), Comps(path)) == Comps(path)
      ensures Plain(path) && r != 0 ==> at == old(at)
      ensures Plain(path) && (data.Some? || r != 0) && old(Pruned()) ==> Pruned()
    {
      hide Valid, Comps, Bindings, Addressed, Pruned, RootLoops, InsertFalls, Reached, PrunedKeys, PrefixClosed;
      hide OnTheWay;
      ghost var keys, b := at.Keys, Bindings();
      Closed();
      PrunedIff();
      if Plain(path) {
        PlainAddressed(at.Keys, Comps(path));
        PlainInsertNeverFalls(at.Keys, Comps(path));
        PlainOnTheWay(at.Keys, Comps(path));
      }
      var last;
      ghost var p;
      last, p, crashed := Reach(path);
      r := 0;
      if crashed { return; }
      BoundHere(p);
      if last.data.Some? {
        LeftOver(keys, b.Keys, p);
        return -EEXIST, false;
      }
      SetData(last, data, p);
      if data.Some? { LeftOver(keys, b.Keys, p); }
    }

    /** Pruned, as a property of the paths alone. */
    lemma PrunedIff()
      requires Valid()
      ensures Pruned() <==> PrunedKeys(at.Keys, Bindings().Keys)
    {
      forall p | p in at ensures at[p].kids != [] <==> HasChild(at.Keys, p) {
        if at[p].kids != [] { ChildRegistered(p, 0); }
        if name :| p + [name] in at { var _ := RegisteredChild(p, name); }
      }
    }

    /** After an insert of data at `a` exactly those created nodes are superfluous that do not lead there. */
    lemma LeftOver(keys: set<Path>, bound: set<Path>, a: Path)
      requires Valid() && keys <= at.Keys && PrefixClosed(keys) && bound <= keys && Bindings().Keys == bound + {a}
      requires a in at
      ensures PrunedKeys(keys, bound) ==> (Pruned() <==> OnTheWay(keys, at.Keys, a))
    {
      hide Valid, Bindings, PrefixClosed;
      PrunedIff();
      Closed();
      if PrunedKeys(keys, bound) {
        if Pruned() {
          forall q | q in at && q !in keys ensures q <= a {
            var r := DataBelow(q);
            if r in keys { PrefixIn(keys, r, q); }
          }
        }
        if forall q | q in at && q !in keys :: q <= a {
          forall q | q in at && q !in Bindings() ensures HasChild(at.Keys, q) {
            if q in keys {
              var name :| q + [name] in keys;
              assert q + [name] in at.Keys;
            } else {
              LeadsOn(q, a);
            }
          }
        }
      }
    }

    lemma LeadsOn(q: Path, a: Path)
      requires Valid() && a in at && q <= a && q != a
      ensures HasChild(at.Keys, q)
    {
      hide Valid, PrefixClosed;
      Closed();
      PrefixIn(at.Keys, a, a[..|q| + 1]);
      assert a[..|q| + 1] == q + [a[|q|]];
    }

    lemma PrunedAll(p: Path)
      requires p in at && (at[p].data.Some? || at[p].kids != [])
      ensures PrunedBut(p) ==> Pruned()
    {}

    lemma BindingsKeys()
      ensures Bindings().Keys <= at.Keys
    {}

    lemma BoundHere(p: Path)
      requires p in at
      ensures p in Bindings() <==> at[p].data.Some?
    {}

    method SetData(last: Node, data: Option<int>, ghost p: Path)
      requires Valid() && p in at && last == at[p]
      modifies last`data
      ensures Valid() && last.data == data
      ensures Bindings() == if data.Some? then old(Bindings())[p := data.value] else old(Bindings()) - {p}
      ensures old(PrunedBut(p)) ==> PrunedBut(p)
    {
      hide Valid, Registered, Bindings, ChildList, Siblings, Rooted;
      Parts();
      BindingsStand();
      assert forall q | q in at && q != p :: at[q] != last;
      ghost var b := if data.Some? then Bindings()[p := data.value] else Bindings() - {p};
      last.data := data;
      StandsUnique(b);
    }

    // ----- remove -----

    /** The leaf at `p`, child j of its parent, is unlinked. */
    twostate predicate Dropped(p: Path, j: nat)
      requires p in old(at) && Up(p, 1) in old(at)
      reads *
    {
      var par := old(at)[Up(p, 1)];
      var ks := old(par.kids);
      && j < |ks| && ks[j] == old(at)[p] && p != [] && old(at[p].kids) == [] && old(at[p].data) == None
      && at == old(at) - {p} && root == old(root)
      && par.kids == ks[..j] + ks[j + 1..] && par.child == (if j == 0 then At(ks, 1) else old(par.child))
      && (forall n | n in old(at).Values ::
            && n.path == old(n.path) && n.parent == old(n.parent) && n.data == old(n.data)
            && (n != par ==> n.child == old(n.child) && n.kids == old(n.kids))
            && n.next == if j > 0 && n == ks[j - 1] then At(ks, j + 1) else old(n.next))
    }

    twostate lemma DroppedSiblings(p: Path, new j: nat)
      requires old(Valid()) && p in old(at) && Up(p, 1) in old(at) && Dropped(p, j)
      ensures ChildList(old(at)[Up(p, 1)])
    {
      hide Rooted, Parented, Siblings;
      var par := old(at)[Up(p, 1)];
      assert old(ChildList(par));
      assert forall k | k in old(par.kids) :: k in old(at).Values;
      SiblingsWithout(par, j);
    }

    twostate lemma DroppedLists(p: Path, new j: nat, new q: Path)
      requires old(Valid()) && p in old(at) && Up(p, 1) in old(at) && Dropped(p, j) && q in at
      ensures ChildList(at[q])
    {
      hide Rooted, Parented;
      if q == Up(p, 1) {
        DroppedSiblings(p, j);
      } else {
        var par := old(at)[Up(p, 1)];
        var n := at[q];
        assert old(ChildList(n)) && old(ChildList(par));
        SiblingsKept(n);
      }
    }

    /** The other nodes' children are still registered: none of them is the leaf. */
    twostate lemma DroppedKid(p: Path, new j: nat, new q: Path)
      requires old(Valid()) && p in old(at) && Up(p, 1) in old(at) && Dropped(p, j) && q in at
      ensures forall k | k in at[q].kids :: k in at.Values
    {
      hide Rooted, Parented;
      var par, n := old(at)[Up(p, 1)], at[q];
      var ks := old(par.kids);
      assert old(ChildList(par)) && old(ChildList(n));
      forall k | k in n.kids ensures k in at.Values {
        assert k in old(n.kids);
        assert k in old(at).Values;
        var r :| r in old(at) && old(at)[r] == k;
        assert k != ks[j];
        assert at[r] == k;
      }
    }

    twostate lemma DroppedRegistered(p: Path, new j: nat)
      requires old(Valid()) && p in old(at) && Up(p, 1) in old(at) && Dropped(p, j)
      ensures Registered()
    {
      hide Rooted, Parented, ChildList;
      forall q, k | q in at && k in at[q].kids ensures k in at.Values { DroppedKid(p, j, q); }
    }

    twostate lemma DroppedParent(p: Path, new j: nat, new q: Path)
      requires old(Valid()) && p in old(at) && Up(p, 1) in old(at) && Dropped(p, j) && q in at && q != []
      ensures q[..|q| - 1] in at && at[q] in at[q[..|q| - 1]].kids
    {
      hide Rooted, ChildList;
      var q' := q[..|q| - 1];
      assert q' in old(at) && old(at[q] in at[q'].kids);
      assert q' != p;
      var ks := old(at[Up(p, 1)].kids);
      if q' == Up(p, 1) {
        var i :| 0 <= i < |ks| && ks[i] == at[q];
        assert i != j;
        assert ks[i] in ks[..j] + ks[j + 1..] by { KeptElement(ks, i, j); }
      }
    }

    twostate lemma DroppedParented(p: Path, new j: nat)
      requires old(Valid()) && p in old(at) && Up(p, 1) in old(at) && Dropped(p, j)
      ensures Parented()
    {
      hide Valid, Dropped;
      forall q | q in at && q != [] ensures q[..|q| - 1] in at && at[q] in at[q[..|q| - 1]].kids {
        DroppedParent(p, j, q);
      }
    }

    twostate lemma DroppedValid(p: Path, new j: nat)
      requires old(Valid()) && p in old(at) && Up(p, 1) in old(at) && Dropped(p, j)
      ensures Valid() && Bindings() == old(Bindings())
      ensures forall q | q in at && q != Up(p, 1) :: at[q].kids == old(at[q].kids)
    {
      hide ChildList, Bindings, Parented;
      DroppedRegistered(p, j);
      forall q | q in at ensures ChildList(at[q]) { DroppedLists(p, j, q); }
      DroppedParented(p, j);
      DroppedBindings(p);
    }

    twostate lemma DroppedBindings(p: Path)
      requires p in old(at) && at == old(at) - {p} && old(at[p].data) == None
      requires forall q | q in at :: at[q].data == old(at[q].data)
      ensures Bindings() == old(Bindings())
    {}

    lemma IndexIn(p: Path) returns (j: nat)
      requires Valid() && p in at && p != [] && Up(p, 1) in at
      ensures var ks := at[Up(p, 1)].kids;
        && j < |ks| && ks[j] == at[p]
        && (forall i {:trigger ks[i].next} | 0 <= i < |ks| :: ks[i].next == At(ks, i + 1))
        && (forall i | 0 <= i < |ks| :: ks[i] in at.Values && (i != j ==> ks[i] != ks[j]))
    {
      var par := at[Up(p, 1)];
      assert at[p] in par.kids && ChildList(par);
      j :| 0 <= j < |par.kids| && par.kids[j] == at[p];
    }

    /** Takes a leaf without data out of its parent's child list. */
    method DropLeaf(last: Node, ghost p: Path)
      requires Valid() && p in at && at[p] == last && p != [] && last.kids == [] && last.data == None
      modifies this`at, at.Values`child, at.Values`kids, at.Values`next
      ensures Valid() && at == old(at) - {p} && Bindings() == old(Bindings())
      ensures forall q | q in at && q != Up(p, 1) :: at[q].kids == old(at[q].kids)
    {
      hide Valid, Registered, Parented, Bindings, ChildList, Siblings, Rooted;
      ParentOf(p);
      ListOf(Up(p, 1));
      var par := last.parent;
      var n := par.child;
      var prev: Node? := null;
      ghost var ks, i := par.kids, 0;
      ghost var j := IndexIn(p);
      while n != null && n != last
        invariant 0 <= i <= j && n == ks[i] && prev == At(ks, i - 1)
        decreases j - i
      {
        prev := n;
        n := n.next;
        i := i + 1;
      }
      CutOut(par, prev, n, j);
      at := at - {p};
      assert Dropped(p, j);
      DroppedValid(p, j);
    }

    lemma FirstChild(q: Path)
      requires Valid() && q in at && q != []
      ensures [] in at && at[[]].kids != []
    {
      Closed();
      PrefixIn(at.Keys, q, []);
      PrefixIn(at.Keys, q, q[..1]);
      assert [] + [q[0]] == q[..1];
      var _ := RegisteredChild([], q[0]);
    }

    /** While any path is bound, the root has a child or data. */
    lemma RootNeeded()
      requires Valid() && root != null && root.kids == [] && root.data == None
      ensures at == map[[] := root] && Bindings() == map[]
    {
      forall q | q in at ensures q == [] {
        if q != [] { FirstChild(q); }
      }
    }

    lemma EmptyChildren(p: Path)
      requires Valid() && p in at
      ensures at[p].child == null <==> at[p].kids == []
    {
      ListOf(p);
    }

    /** Deletes one node that has neither data nor children and goes on to its parent. */
    method PruneOnce(last: Node, ghost p: Path) returns (next: Node)
      requires Valid() && p in at && at[p] == last && last.data == None && last.child == null
      requires last.parent != null
      modifies this, at.Values`child, at.Values`kids, at.Values`next
      ensures Valid() && Bindings() == old(Bindings()) && (old(RootLoops()) ==> RootLoops())
      ensures next == last <==> p == []
      ensures p == [] ==> root == null && at == map[]
      ensures p != [] ==> Up(p, 1) in at && next == at[Up(p, 1)] && at == old(at) - {p}
      ensures p != [] ==> RootLoops() == old(RootLoops())
      ensures p != [] && old(PrunedBut(p)) ==> PrunedBut(Up(p, 1))
    {
      hide Valid, Bindings, Registered, Parented, ChildList, Siblings;
      EmptyChildren(p);
      PathOf(p);
      if p == [] {
        RootAt();
        RootNeeded();
      } else {
        ParentOf(p);
        PathOf(Up(p, 1));
      }
      next := last.parent;
      if last.parent != last {
        DropLeaf(last, p);
      } else {
        root := null;
        at := map[];
        Emptied();
      }
    }

    lemma Emptied()
      requires root == null && at == map[]
      ensures Valid() && Bindings() == map[]
    {}

    /** A node that is still needed. */
    lemma StopsHere(p: Path)
      requires Valid() && p in at && (at[p].data.Some? || at[p].kids != [])
      ensures !(Bindings() == map[] && IsChain(at.Keys, p))
    {
      if at[p].data == None { ChildRegistered(p, 0); } else { BoundHere(p); }
    }

    lemma OnlyRoot()
      requires Valid() && root != null && root.kids == [] && root.data == None
      ensures Bindings() == map[] && IsChain(at.Keys, [])
    {
      RootNeeded();
    }

    /** The upward loop of remove: deletes nodes that have neither data nor children.  If it deletes the
        whole tree it also follows the parent of the root, which is null in a clone: then it crashes. */
    method Prune(from: Node, ghost p0: Path) returns (crashed: bool)
      requires Valid() && p0 in at && at[p0] == from
      modifies this, at.Values`child, at.Values`kids, at.Values`next
      ensures Valid() && Bindings() == old(Bindings()) && (old(RootLoops()) ==> RootLoops())
      ensures crashed <==> !old(RootLoops()) && old(Bindings()) == map[] && IsChain(old(at.Keys), p0)
      ensures !crashed && old(PrunedBut(p0)) ==> Pruned()
    {
      hide Valid, Bindings, RootLoops, PrunedBut, IsChain;
      var last := from;
      ghost var p := p0;
      while last.data == None && last.child == null
        invariant Valid() && p in at && last == at[p]
        invariant at.Values <= old(at.Values) && Bindings() == old(Bindings())
        invariant RootLoops() == old(RootLoops())
        invariant IsChain(at.Keys, p) <==> IsChain(old(at.Keys), p0)
        invariant old(PrunedBut(p0)) ==> PrunedBut(p)
        decreases |p|
      {
        NoParent(p);
        if last.parent == null {
          EmptyChildren(p);
          RootAt();
          OnlyRoot();
          return true;
        }
        ghost var keys := at.Keys;
        var next := PruneOnce(last, p);
        if next == last {
          return false;
        }
        ChainUp(keys, p);
        assert at.Keys == keys - {p};
        last := next;
        p := Up(p, 1);
      }
      EmptyChildren(p);
      StopsHere(p);
      PrunedAll(p);
      crashed := false;
    }

    /** remove: takes out the binding of the path if find follows it to its end, and returns its data.  It
        crashes exactly where find does, and in a clone of which nothing but the path's binding and the nodes
        above it is left; without ".." in a pruned tree, exactly if the path's binding is the last one. */
    method Remove(path: string) returns (res: Option<int>, crashed: bool)
      requires Valid()
      modifies this, at.Values
      ensures Valid() && (old(RootLoops()) ==> RootLoops())
      ensures var w := Walk(old(at.Keys), [], Comps(path));
        crashed <==>
          && !old(RootLoops())
          && (Falls(old(at.Keys), [], Comps(path))
              || (AllDots(w.rest) && old(Bindings()).Keys == {w.q} && IsChain(old(at.Keys), w.q)))
      ensures Plain(path) && old(Pruned()) ==>
        (crashed <==> !old(RootLoops()) && old(Bindings()).Keys == {Comps(path)})
      ensures old(RootLoops()) || !Falls(old(at.Keys), [], Comps(path)) ==>
        var w := Walk(old(at.Keys), [], Comps(path));
        if AllDots(w.rest) && w.q in old(Bindings())
        then res == Some(old(Bindings())[w.q]) && Bindings() == old(Bindings()) - {w.q}
        else res == None && at == old(at) && Bindings() == old(Bindings())
      ensures Plain(path) ==>
        && Bindings() == old(Bindings()) - {Comps(path)}
        && res == if Comps(path) in old(Bindings()) then Some(old(Bindings())[Comps(path)]) else None
      ensures !crashed && old(Pruned()) ==> Pruned()
    {
      hide Valid, Bindings, Pruned, RootLoops, PrunedBut, Walk, Comps, Bound, Lookup, PrefixClosed, IsChain, Falls;
      Closed();
      ghost var w := Walk(at.Keys, [], Comps(path));
      if Plain(path) {
        PlainThere(at.Keys, Comps(path));
        PlainNeverFalls(at.Keys, [], Comps(path));
      }
      RemoveTarget(path);
      LastIsChain(Comps(path));
      res := None;
      var found, last, rest;
      found, last, rest, crashed := FindNode(path, false);
      if crashed { return; }
      BindingsStand();
      ghost var b := Bindings();
      assert Comps(path) !in b ==> b - {Comps(path)} == b;
      if last != null && found == last && rest == "" {
        SameNode(w.q, Lookup(at.Keys, Bound(), Comps(path)).m);
        res := found.data;
        crashed := Unbind(last, w.q);
      }
    }

    /** Takes away a node's data, and the nodes that are then unnecessary. */
    method Unbind(last: Node, ghost p: Path) returns (crashed: bool)
      requires Valid() && p in Bindings() && p in at && at[p] == last
      modifies this, at.Values
      ensures Valid() && (old(RootLoops()) ==> RootLoops()) && Bindings() == old(Bindings()) - {p}
      ensures crashed <==> !old(RootLoops()) && old(Bindings()).Keys == {p} && IsChain(old(at.Keys), p)
      ensures !crashed && old(Pruned()) ==> Pruned()
    {
      hide Valid, Bindings, Pruned, RootLoops, PrunedBut, IsChain;
      PrunedExcept(p);
      NothingElse(Bindings(), p);
      SetData(last, None, p);
      crashed := Prune(last, p);
    }

    /** In a pruned tree with a single binding all nodes are on the way to it. */
    lemma LastIsChain(p: Path)
      requires Valid()
      ensures Pruned() && Bindings().Keys == {p} ==> IsChain(at.Keys, p) && p in at
    {
      hide Registered, Parented, ChildList;
      if Pruned() && Bindings().Keys == {p} {
        BindingsKeys();
        forall q | q in at ensures q <= p { var r := DataBelow(q); }
      }
    }

    lemma PrunedExcept(p: Path)
      ensures Pruned() ==> PrunedBut(p)
    {}

    /** find's match is the node it ended at exactly if that node has data. */
    lemma RemoveTarget(path: string)
      requires Valid()
      ensures var w, b := Walk(at.Keys, [], Comps(path)), Lookup(at.Keys, Bound(), Comps(path));
        AllDots(w.rest) ==> (b.Match? && b.m == w.q <==> w.q in Bindings())
    {
      Closed();
      var bound, cs := Bound(), Comps(path);
      LastMatch(at.Keys, bound, [], cs, if [] in bound then Match([], cs) else NoMatch);
    }

    lemma {:induction false} DataBelow(p: Path) returns (q: Path)
      requires Valid() && Pruned() && p in at
      ensures q in Bindings() && p <= q
      decreases Below(p)
    {
      if at[p].data.Some? {
        q := p;
      } else {
        ChildRegistered(p, 0);
        BelowChild(p, at[p].kids[0].name);
        q := DataBelow(p + [at[p].kids[0].name]);
      }
    }

    /** A pruned tree has a root exactly if something is bound. */
    lemma RootIffBound()
      requires Valid() && Pruned()
      ensures root == null <==> Bindings() == map[]
    {
      hide Registered, Parented, ChildList;
      if root != null { var q := DataBelow([]); }
    }

    // ----- clone -----

    ghost function Below(p: Path): set<Path>
      reads this`at
    {
      set q | q in at && p <= q
    }

    /** The paths through some of the children of the node at `p`. */
    ghost function Through(p: Path, ks: seq<Node>): set<Path>
      reads this`at
    {
      set q | q in at && |q| > |p| && p <= q && exists i :: 0 <= i < |ks| && ks[i].name == q[|p|]
    }

    lemma ThroughAll(p: Path)
      requires Valid() && p in at
      ensures Below(p) == {p} + Through(p, at[p].kids)
    {
      hide Valid, PrefixClosed;
      Closed();
      forall q | q in Below(p) && q != p ensures q in Through(p, at[p].kids) {
        PrefixIn(at.Keys, q, q[..|p| + 1]);
        assert q[..|p| + 1] == p + [q[|p|]];
        var i := RegisteredChild(p, q[|p|]);
      }
    }

    lemma ThroughMore(p: Path, ks: seq<Node>, j: nat)
      requires j < |ks| && forall i | 0 <= i < j :: ks[i].name != ks[j].name
      ensures Through(p, ks[..j + 1]) == Through(p, ks[..j]) + Below(p + [ks[j].name])
      ensures Through(p, ks[..j]) !! Below(p + [ks[j].name])
    {
      var c := p + [ks[j].name];
      forall q | q in at ensures q in Below(c) <==> |q| > |p| && p <= q && q[|p|] == ks[j].name {
        if |q| > |p| && p <= q && q[|p|] == ks[j].name { assert q[..|p| + 1] == c; }
      }
    }

    /** Hangs the copy `nn` of child j of the node at `p` in front of the copies made so far. */
    method Attach(top: Node, nn: Node, ghost n: Node, ghost ks: seq<Node>, ghost j: nat,
                  ghost c: map<Path, Node>, ghost d: map<Path, Node>)
      requires Valid() && n.path in at && at[n.path] == n && ks == n.kids && j < |ks|
      requires top !in at.Values && nn !in at.Values && top !in c.Values && top !in d.Values && top != nn
      requires top.path == n.path && ChildList(top) && |top.kids| == j && TwinKids(n, ks[..j], top.kids, c)
      requires c.Keys == Through(n.path, ks[..j]) && d.Keys == Below(n.path + [ks[j].name])
      requires n.path + [ks[j].name] in d && nn == d[n.path + [ks[j].name]] && nn.parent == null
      requires forall q | q in c :: q in at && Twin(at[q], c[q], c) && ChildList(c[q])
      requires forall q | q in d :: q in at && Twin(at[q], d[q], d) && ChildList(d[q])
      modifies top`child, top`kids, nn`next, nn`parent
      ensures ChildList(top) && |top.kids| == j + 1 && TwinKids(n, ks[..j + 1], top.kids, c + d)
      ensures (c + d).Keys == Through(n.path, ks[..j + 1])
      ensures forall q | q in c + d :: q in at && Twin(at[q], (c + d)[q], c + d) && ChildList((c + d)[q])
    {
      hide Valid, Twin, TwinKids, ChildList, Siblings, Through, Below;
      ghost var p, ms := n.path, top.kids;
      ghost var key := p + [ks[j].name];
      ListOf(p);
      NamesDiffer(p, j);
      ThroughMore(p, ks, j);
      TwinKidsMore(n, j, nn, ms, c, d);
      forall q | q in c + d
        ensures q in at && nn !in (c + d)[q].kids && (c + d)[q] != top && Twin(at[q], (c + d)[q], c + d)
      {
        if q in d {
          TwinMore(at[q], d[q], d, c);
          NotAKid(d[q], nn);
        } else {
          TwinMore(at[q], c[q], c, d);
          NotAKid(c[q], nn);
        }
      }
      ChildRegistered(p, j);
      PathOf(key);
      TwinSays(at[key], nn, d);
      forall q | q in c ensures c[q].path == q {
        PathOf(q);
        TwinSays(at[q], c[q], c);
      }
      NewName(n, j, ms, c, top, nn);
      PushFront(top, nn);
      ConsSibling(top, nn, ms);
      ListFrom(top);
    }

    lemma NamesDiffer(p: Path, j: nat)
      requires Valid() && p in at && j < |at[p].kids|
      ensures forall i | 0 <= i < j :: at[p].kids[i].name != at[p].kids[j].name
    {
      ListOf(p);
    }

    /** cloneRec: a new node for every node below `n`. */
    method CloneRec(n: Node, ghost p: Path) returns (clone: Node, ghost c: map<Path, Node>)
      requires Valid() && p in at && at[p] == n
      ensures c.Keys == Below(p) && p in c && c[p] == clone && clone.parent == null && clone.next == null
      ensures forall q | q in c :: q in at && fresh(c[q]) && Twin(at[q], c[q], c) && ChildList(c[q])
      decreases Below(p), 1
    {
      hide Valid, Twin, TwinKids, ChildList, Siblings, Through, Below, Registered, Parented, Rooted;
      clone := new Node(n.name, p);
      clone.data := n.data;
      PathOf(p);
      ListOf(p);
      ListFrom(clone);
      ThroughAll(p);
      c := map[];
      var k := n.child;
      ghost var ks, j := n.kids, 0;
      NoneThrough(p);
      assert ks[..0] == [];
      NoTwins(n);
      while k != null
        invariant 0 <= j <= |ks| && k == At(ks, j) && ks == n.kids && Valid()
        invariant clone.path == p && clone.data == n.data && clone.parent == null && clone.next == null
        invariant ChildList(clone) && |clone.kids| == j && TwinKids(n, ks[..j], clone.kids, c)
        invariant c.Keys == Through(p, ks[..j]) && clone !in c.Values
        invariant forall q | q in c :: q in at && fresh(c[q]) && Twin(at[q], c[q], c) && ChildList(c[q])
        decreases |ks| - j
      {
        c := CloneNext(clone, k, n, ks, j, c);
        assert ks[j].next == At(ks, j + 1);
        k := k.next;
        j := j + 1;
      }
      assert ks[..j] == ks;
      TopTwin(n, clone, p, c);
      c := c[p := clone];
    }

    /** One round of the loop over the children: clones child j of `n` and hangs it in front. */
    method CloneNext(clone: Node, k: Node, ghost n: Node, ghost ks: seq<Node>, ghost j: nat, ghost c: map<Path, Node>)
      returns (ghost c': map<Path, Node>)
      requires Valid() && n.path in at && at[n.path] == n && ks == n.kids && j < |ks| && k == ks[j]
      requires clone !in at.Values && clone !in c.Values && clone.path == n.path
      requires ChildList(clone) && |clone.kids| == j && TwinKids(n, ks[..j], clone.kids, c)
      requires c.Keys == Through(n.path, ks[..j])
      requires forall q | q in c :: q in at && Twin(at[q], c[q], c) && ChildList(c[q])
      modifies clone`child, clone`kids
      ensures ChildList(clone) && |clone.kids| == j + 1 && TwinKids(n, ks[..j + 1], clone.kids, c')
      ensures c'.Keys == Through(n.path, ks[..j + 1]) && clone !in c'.Values
      ensures forall q | q in c' :: q in at && (fresh(c'[q]) || c'[q] in c.Values)
      ensures forall q | q in c' :: Twin(at[q], c'[q], c') && ChildList(c'[q])
      decreases Below(n.path), 0
    {
      hide Valid, Twin, TwinKids, ChildList, Siblings, Through, Below, Registered, Parented, Rooted;
      ChildRegistered(n.path, j);
      BelowChild(n.path, k.name);
      var nn;
      ghost var d;
      nn, d := CloneRec(k, n.path + [k.name]);
      Attach(clone, nn, n, ks, j, c, d);
      c' := c + d;
    }

    lemma BelowChild(p: Path, name: string)
      requires p in at
      ensures Below(p + [name]) < Below(p)
    {
      assert p in Below(p) && p !in Below(p + [name]);
    }

    lemma NoneThrough(p: Path)
      ensures Through(p, []) == {}
    {}

    /** With its children in place the copy of the node at `p` completes the copies below it. */
    lemma TopTwin(n: Node, top: Node, p: Path, c: map<Path, Node>)
      requires Valid() && p in at && at[p] == n && top.path == p && top.name == n.name && top.data == n.data
      requires ChildList(top) && |top.kids| == |n.kids| && TwinKids(n, n.kids, top.kids, c)
      requires c.Keys == Through(p, n.kids)
      requires forall q | q in c :: q in at && Twin(at[q], c[q], c) && ChildList(c[q])
      ensures p !in c && c[p := top].Keys == Below(p)
      ensures forall q | q in c[p := top] ::
        q in at && Twin(at[q], c[p := top][q], c[p := top]) && ChildList(c[p := top][q])
    {
      hide Valid, TwinKids, ChildList, Siblings, Below, Registered, Parented;
      PathOf(p);
      ThroughAll(p);
      assert p !in c;
      var d := map[p := top];
      assert c + d == c[p := top];
      TwinKidsKept(n, n.kids, top.kids, c, d);
      forall q | q in c ensures Twin(at[q], c[q], c + d) { TwinMore(at[q], c[q], c, d); }
    }

    /** A complete copy has the shape of a tree with the same bindings. */
    lemma CopyShape(c: map<Path, Node>)
      requires Valid() && c.Keys == at.Keys && forall q | q in c :: Twin(at[q], c[q], c)
      ensures forall q | q in c :: c[q].path == q && c[q].data == at[q].data && (c[q].kids == [] <==> at[q].kids == [])
      ensures forall q | q in c :: forall k | k in c[q].kids :: k in c.Values
      ensures HasParents(c)
    {
      hide Valid, Twin, TwinKids, ChildList, Registered, Parented, Rooted;
      forall q | q in c ensures c[q].path == q && c[q].data == at[q].data && (c[q].kids == [] <==> at[q].kids == []) {
        PathOf(q);
        TwinSays(at[q], c[q], c);
      }
      forall q | q in c ensures forall k | k in c[q].kids :: k in c.Values { TwinKidsIn(at[q], c[q], c); }
      forall q | q in c && q != [] ensures q[..|q| - 1] in c && c[q] in c[q[..|q| - 1]].kids { CopyParent(c, q); }
    }

    lemma CopyRegistered()
      requires forall q | q in at :: at[q].path == q
      requires forall q | q in at :: forall k | k in at[q].kids :: k in at.Values
      ensures Registered()
    {}

    lemma CopyParent(c: map<Path, Node>, q: Path)
      requires Valid() && c.Keys == at.Keys && (forall r | r in c :: Twin(at[r], c[r], c)) && q in c && q != []
      ensures q[..|q| - 1] in c && c[q] in c[q[..|q| - 1]].kids
    {
      hide Valid, Twin, TwinKids, PrefixClosed;
      var r, name := q[..|q| - 1], q[|q| - 1];
      assert r + [name] == q;
      Closed();
      assert r in at by { PrefixIn(at.Keys, q, r); }
      PathOf(r);
      var i := RegisteredChild(r, name);
      TwinKid(at[r], c[r], c, i);
    }

    lemma PrunedIf()
      requires forall q | q in at :: at[q].kids != [] || at[q].data.Some?
      ensures Pruned()
    {}

    /** Clones all nodes. */
    method CloneAll() returns (r: Node?, ghost c: map<Path, Node>)
      requires Valid()
      ensures c.Keys == at.Keys && (r == null <==> [] !in c) && (r != null ==> c[[]] == r && r.parent == null)
      ensures (forall q | q in c :: r != null) && HasParents(c)
      ensures forall q | q in c :: fresh(c[q]) && Twin(at[q], c[q], c) && ChildList(c[q])
      ensures forall q | q in c :: c[q].path == q && c[q].data == at[q].data && (c[q].kids == [] <==> at[q].kids == [])
      ensures forall q | q in c :: forall k | k in c[q].kids :: k in c.Values
      ensures Pruned() ==> forall q | q in c :: c[q].kids != [] || c[q].data.Some?
    {
      hide Valid, Twin, ChildList, Below, HasParents;
      r, c := null, map[];
      RootAt();
      AllBelow();
      if root == null {
        Closed();
      } else {
        r, c := CloneRec(root, []);
      }
      CopyShape(c);
    }

    /** replaceWith: the tree becomes a copy of `src`, whose nodes stay as they are.  The new root has no
        parent. */
    method ReplaceWith(src: PathTree)
      requires src.Valid()
      modifies this
      ensures Valid() && fresh(at.Values) && (root != null ==> root.parent == null)
      ensures at.Keys == old(src.at.Keys) && Bindings() == old(src.Bindings())
      ensures old(src.Pruned()) ==> Pruned()
      ensures forall q | q in at :: Twin(old(src.at)[q], at[q], at)
      ensures src != this ==> src.Valid()
    {
      hide Valid, Twin, ChildList, Registered, HasParents, Bindings, Pruned;
      ghost var pruned, b := src.Pruned(), src.Bindings();
      src.BindingsStand();
      var r;
      ghost var c;
      r, c := src.CloneAll();
      root := r;
      at := c;
      CopyRegistered();
      Whole();
      StandsUnique(b);
      if pruned { PrunedIf(); }
    }

    lemma AllBelow()
      ensures Below([]) == at.Keys
    {}

    lemma NoBindings()
      requires at == map[]
      ensures Bindings() == map[]
    {}

    lemma ClonedRoot()
      requires root != null && root.parent == null
      ensures !RootLoops()
    {}

    method NewRoot() returns (i: Node)
      requires Valid() && root == null
      modifies this
      ensures Valid() && RootLoops() && fresh(i) && root == i && at == map[[] := i]
      ensures i.data == None && i.kids == [] && Bindings() == old(Bindings())
    {
      i := new Node("/", []);
      root := i;
      i.parent := i;
      at := map[[] := i];
    }
  }

  const EEXIST := 5

  lemma PathOverX()
    ensures Comps("x/../y") == ["x", "..", "y"]
  {
    hide Comps;
    OneComp("x");
    OneComp("..");
    OneComp("y");
    CompsJoin("x/..", "y");
    CompsJoin("x", "..");
    assert "x" + "/" + ".." == "x/.." && "x/.." + "/" + "y" == "x/../y";
    assert ["x"] + [".."] + ["y"] == ["x", "..", "y"];
  }

  lemma PathsUp()
    ensures Comps("/..") == [".."] && Comps("/../..") == ["..", ".."]
  {
    hide Comps;
    OneComp("..");
    CompsNil();
    CompsJoin("", "..");
    CompsJoin("/..", "..");
    assert "" + "/" + ".." == "/.." && "/.." + "/" + ".." == "/../..";
    assert [] + [".."] == [".."] && [".."] + [".."] == ["..", ".."];
  }

  /** A node that is left over: inserting "x/../y" creates "x", which leads nowhere. */
  method InsertLeavesNode() returns (tree: PathTree)
    ensures tree.Valid() && ["x"] in tree.at && !tree.Pruned()
  {
    hide PathTree.Valid, PathTree.RootLoops, PathTree.Bindings, PathTree.Pruned, Comps;
    PathOverX();
    tree := new PathTree();
    assert tree.Bindings() == map[] by { tree.NoBindings(); }
    EmptyAddressed(["x", "..", "y"]);
    ByTheWay();
    assert tree.at.Keys == {};
    var r, crashed := tree.Insert("x/../y", Some(1));
  }

  lemma ByTheWay()
    ensures Norm([], ["x", "..", "y"]) == ["y"]
    ensures ["x"] in Reached({} + {[]}, [], ["x", "..", "y"])
    ensures forall keys | ["x"] in keys :: !OnTheWay({}, keys, ["y"])
  {
    var cs: Path := ["x", "..", "y"];
    assert cs[1..] == ["..", "y"] && cs[1..][1..] == ["y"] && ["y"][1..] == [];
    assert [] + ["x"] == ["x"] && Up(["x"], 1) == [] && [] + ["y"] == ["y"];
    assert Norm([], cs) == Norm(["x"], ["..", "y"]) == Norm([], ["y"]) == Norm(["y"], []);
    assert Visited([], cs) == {["x"]} + Visited(["x"], ["..", "y"]);
    assert ["x"][0] != ["y"][0];
  }

  /** The clone of a tree in which only "/" is bound. */
  method CloneOfRoot() returns (clone: PathTree)
    ensures fresh(clone) && clone.Valid() && fresh(clone.at.Values) && clone.Pruned() && !clone.RootLoops()
    ensures clone.Bindings() == map[[] := 1]
  {
    hide PathTree.Valid, PathTree.RootLoops, PathTree.Bindings, PathTree.Pruned, Addressed, Norm, Reached, OnTheWay;
    RootPath();
    var tree := new PathTree();
    assert tree.Bindings() == map[] by { tree.NoBindings(); }
    var r, fell := tree.Insert("/", Some(1));
    clone := new PathTree();
    clone.ReplaceWith(tree);
    clone.RootIffBound();
    clone.ClonedRoot();
  }

  lemma ClimbsAbove(keys: set<Path>)
    ensures !Falls(keys, [], [".."]) && Falls(keys, [], ["..", ".."])
  {
    assert ["..", ".."][1..] == [".."];
    assert LeadingDots([".."]) == 1 && LeadingDots(["..", ".."]) == 2;
  }

  /** In a clone find answers "/..", which ends one level above the root, and dereferences null for
      "/../..". */
  method FindAboveClone() returns (once: bool, twice: bool)
    ensures !once && twice
  {
    hide PathTree.Valid, PathTree.RootLoops, PathTree.Bindings, PathTree.Pruned, Falls;
    PathsUp();
    var clone := CloneOfRoot();
    ClimbsAbove(clone.at.Keys);
    var found, end;
    found, end, once := clone.Find("/..");
    found, end, twice := clone.Find("/../..");
  }

  /** The smallest crash: "/" is bound, the tree is cloned, and "/" is removed from the clone. */
  method RemoveLastOfClone() returns (crashed: bool)
    ensures crashed
  {
    hide PathTree.Valid, PathTree.RootLoops, PathTree.Bindings, PathTree.Pruned;
    RootPath();
    var clone := CloneOfRoot();
    var res;
    res, crashed := clone.Remove("/");
  }

  lemma {:induction false} PlainTail(k: nat, cs: Path)
    ensures k > 0 ==> ".." in Dots(k) + cs
    ensures forall c | c in cs :: c in Dots(k) + cs
  {
    if k > 0 { assert (Dots(k) + cs)[0] == ".."; }
  }

  /** All paths are on the way to `p`. */
  ghost predicate IsChain(keys: set<Path>, p: Path) {
    forall q | q in keys :: q <= p
  }

  lemma ChainUp(keys: set<Path>, p: Path)
    requires p in keys && p != []
    ensures IsChain(keys - {p}, Up(p, 1)) <==> IsChain(keys, p)
  {
    if IsChain(keys, p) {
      forall q | q in keys - {p} ensures q <= Up(p, 1) { assert q <= p && q != p; }
    } else {
      var q :| q in keys && !(q <= p);
      assert q in keys - {p} && !(q <= Up(p, 1));
    }
  }

  ghost predicate HasChild(keys: set<Path>, p: Path) {
    exists name: string :: p + [name] in keys
  }

  ghost predicate PrunedKeys(keys: set<Path>, bound: set<Path>) {
    forall p | p in keys :: p in bound || HasChild(keys, p)
  }

  lemma NothingElse(b: map<Path, int>, p: Path)
    requires p in b
    ensures b - {p} == map[] <==> b.Keys == {p}
  {
    if b.Keys != {p} {
      var q :| q in b && q != p;
      assert q in b - {p};
    }
  }

  lemma RootPath()
    ensures Comps("/") == [] && Plain("/")
  {
    assert "/"[1..] == "";
    CompsNil();
  }

  lemma {:induction false} DotsAtLeast(k: nat, rest: Path)
    ensures LeadingDots(Dots(k) + rest) >= k
  {
    if k > 0 {
      DotsAtLeast(k - 1, rest);
      assert (Dots(k) + rest)[1..] == Dots(k - 1) + rest;
    }
  }

  lemma DotsFew(cs: Path)
    ensures LeadingDots(cs) <= |cs|
  {}

  lemma FallsOnly(keys: set<Path>, p: Path, cs: Path)
    ensures Slips(|p|, cs) ==> Falls(keys, p, cs)
    ensures AllDots(cs) && !Slips(|p|, cs) ==> !Falls(keys, p, cs)
  {}

  lemma UpNone(p: Path)
    ensures Up(p, 0) == p
  {}

  lemma CompsNil()
    ensures Comps("") == []
  {}

  lemma {:induction false} DotsSnoc(k: nat)
    ensures Dots(k + 1) == Dots(k) + [".."]
  {
    if k > 0 { DotsSnoc(k - 1); }
  }

  lemma NoDots(cs: Path)
    ensures cs == Dots(0) + cs
  {}

  lemma MoreDots(cs: Path, k: nat, rest: Path)
    requires cs == Dots(k) + ([".."] + rest)
    ensures cs == Dots(k + 1) + rest && ".." in cs
  {
    DotsSnoc(k);
    assert cs[k] == "..";
  }

  /** The first component, as toNext tells ".", ".." and others apart. */
  lemma CompCases(s: string)
    requires s != "" && s[0] != '/'
    ensures var n := CompLen(s);
      && n > 0
      && (n == 1 && s[0] == '.' ==> Comps(s) == Comps(s[1..]))
      && (n == 2 && s[0] == '.' && s[1] == '.' ==> Comps(s) == [".."] + Comps(s[2..]))
      && (!(n == 1 && s[0] == '.') && !(n == 2 && s[0] == '.' && s[1] == '.') ==>
            s[..n] != ".." && Comps(s) == [s[..n]] + Comps(s[n..]))
  {
    var n := CompLen(s);
    if n == 1 { assert s[..1] == [s[0]]; }
    if n == 2 { assert s[..2] == [s[0], s[1]]; }
  }

  method SkipSlashes(s: string) returns (r: string)
    ensures Comps(r) == Comps(s) && |r| <= |s| && (r != "" ==> r[0] != '/')
  {
    r := s;
    while r != "" && r[0] == '/'
      invariant Comps(r) == Comps(s) && |r| <= |s|
      decreases |r|
    {
      r := r[1..];
    }
  }
}
