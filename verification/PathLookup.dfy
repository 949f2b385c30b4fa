/**
 Paths as the path tree reads them: components between slashes, where empty components and "."
 do not count.
 */
module PathStrings {
  type Path = seq<string>

  /** strchri(s, '/'): the length of the first component. */
  function CompLen(s: string): (n: nat)
    ensures n <= |s| && (n < |s| ==> s[n] == '/') && forall i | 0 <= i < n :: s[i] != '/'
  {
    if s == "" || s[0] == '/' then 0 else 1 + CompLen(s[1..])
  }

  function Comps(s: string): Path
    decreases |s|
  {
    if s == "" then []
    else if s[0] == '/' then Comps(s[1..])
    else
      var n := CompLen(s);
      if s[..n] == "." then Comps(s[n..]) else [s[..n]] + Comps(s[n..])
  }

  lemma {:induction false} CompLenBefore(s: string, t: string)
    ensures CompLen(s + "/" + t) == CompLen(s)
    decreases |s|
  {
    if s != "" && s[0] != '/' {
      assert (s + "/" + t)[1..] == s[1..] + "/" + t;
      CompLenBefore(s[1..], t);
    }
  }

  /** Joining paths joins their components. */
  lemma {:induction false} CompsJoin(s: string, t: string)
    ensures Comps(s + "/" + t) == Comps(s) + Comps(t)
    decreases |s|
  {
    var st := s + "/" + t;
    if s == "" {
      assert st[0] == '/' && st[1..] == t;
    } else if s[0] == '/' {
      assert st[1..] == s[1..] + "/" + t;
      CompsJoin(s[1..], t);
    } else {
      var n := CompLen(s);
      CompLenBefore(s, t);
      assert st[..n] == s[..n] && st[n..] == s[n..] + "/" + t;
      CompsJoin(s[n..], t);
    }
  }

  lemma {:induction false} WholeLen(s: string)
    requires '/' !in s
    ensures CompLen(s) == |s|
  {
    if s != "" { WholeLen(s[1..]); }
  }

  /** A path of one component. */
  lemma OneComp(s: string)
    requires '/' !in s && s != "" && s != "."
    ensures Comps(s) == [s]
  {
    WholeLen(s);
    assert s[..|s|] == s && s[|s|..] == "" && Comps("") == [];
  }

  lemma CompsSmall()
    ensures Comps("") == [] == Comps(".")
  {
    assert CompLen("."[1..]) == 0;
  }

  /** Repeated slashes and "." make no difference. */
  lemma CompsSlack(s: string, t: string)
    ensures Comps(s + "//" + t) == Comps(s + "/./" + t) == Comps(s + "/" + t) == Comps(s) + Comps(t)
  {
    hide Comps;
    CompsSmall();
    CompsJoin(s, t);
    assert Comps(s + "//" + t) == Comps(s) + Comps(t) by {
      CompsJoin(s + "/", t);
      CompsJoin(s, "");
      assert s + "/" + "" == s + "/" && s + "/" + "/" + t == s + "//" + t;
    }
    assert Comps(s + "/./" + t) == Comps(s) + Comps(t) by {
      CompsJoin(s + "/.", t);
      CompsJoin(s, ".");
      assert s + "/" + "." == s + "/." && s + "/." + "/" + t == s + "/./" + t;
    }
  }

  /** No component leads upwards. */
  predicate Plain(s: string) {
    ".." !in Comps(s)
  }

  /** Following components from depth d never climbs above the root. */
  predicate Stays(d: nat, cs: Path)
    decreases |cs|
  {
    cs == [] || if cs[0] == ".." then d > 0 && Stays(d - 1, cs[1..]) else Stays(d + 1, cs[1..])
  }

  lemma {:induction false} PlainStays(d: nat, cs: Path)
    requires ".." !in cs
    ensures Stays(d, cs)
    decreases |cs|
  {
    if cs != [] { PlainStays(d + 1, cs[1..]); }
  }

  lemma StaysNil(d: nat)
    ensures Stays(d, [])
  {}

  function Dots(k: nat): (p: Path)
    ensures |p| == k && forall i | 0 <= i < k :: p[i] == ".."
  {
    if k == 0 then [] else [".."] + Dots(k - 1)
  }

  /** k levels up; the root is above itself. */
  function Up(p: Path, k: nat): (r: Path)
    ensures |r| == if k <= |p| then |p| - k else 0
    ensures r <= p && (k == 0 ==> r == p)
  {
    if k <= |p| then p[..|p| - k] else []
  }

  /** Where components lead from `p`, read as they stand. */
  function Norm(p: Path, cs: Path): Path
    decreases |cs|
  {
    if cs == [] then p
    else if cs[0] == ".." then Norm(Up(p, 1), cs[1..])
    else Norm(p + [cs[0]], cs[1..])
  }

  lemma {:induction false} NormDots(p: Path, k: nat, cs: Path)
    ensures Norm(p, Dots(k) + cs) == Norm(Up(p, k), cs)
    decreases k
  {
    if k == 0 {
      assert Dots(0) + cs == cs;
    } else {
      NormDots(Up(p, 1), k - 1, cs);
      assert (Dots(k) + cs)[1..] == Dots(k - 1) + cs;
      assert Up(Up(p, 1), k - 1) == Up(p, k);
    }
  }

  /** The paths on the way. */
  function Visited(p: Path, cs: Path): set<Path>
    decreases |cs|
  {
    if cs == [] then {}
    else if cs[0] == ".." then Visited(Up(p, 1), cs[1..])
    else {p + [cs[0]]} + Visited(p + [cs[0]], cs[1..])
  }

  function Reached(keys: set<Path>, p: Path, cs: Path): set<Path> {
    keys + Visited(p, cs)
  }

  lemma ReachedAll(keys: set<Path>, p: Path)
    ensures Reached(keys, p, []) == keys
  {}

  lemma {:induction false} VisitedDots(p: Path, k: nat, cs: Path)
    ensures Visited(p, Dots(k) + cs) == Visited(Up(p, k), cs)
    decreases k
  {
    if k == 0 {
      assert Dots(0) + cs == cs;
    } else {
      VisitedDots(Up(p, 1), k - 1, cs);
      assert (Dots(k) + cs)[1..] == Dots(k - 1) + cs;
      assert Up(Up(p, 1), k - 1) == Up(p, k);
    }
  }

  lemma VisitedNext(p: Path, c: string, cs: Path)
    ensures Visited(p, []) == {}
    ensures c != ".." ==> Visited(p, [c] + cs) == {p + [c]} + Visited(p + [c], cs)
  {
    assert ([c] + cs)[1..] == cs;
  }

  lemma NormNil(p: Path)
    ensures Norm(p, []) == p
  {}

  lemma NormCons(p: Path, c: string, cs: Path)
    requires c != ".."
    ensures Norm(p, [c] + cs) == Norm(p + [c], cs)
  {
    assert ([c] + cs)[1..] == cs;
  }

  lemma {:induction false} NormPlain(p: Path, cs: Path)
    requires ".." !in cs
    ensures Norm(p, cs) == p + cs
    decreases |cs|
  {
    if cs != [] { NormPlain(p + [cs[0]], cs[1..]); }
  }
}

/** Lookup in a tree as a function of the component list alone. */
module PathLookup {
  import opened PathStrings

  function LeadingDots(cs: Path): (k: nat)
    ensures k <= |cs| && (k < |cs| ==> cs[k] != "..") && forall i | 0 <= i < k :: cs[i] == ".."
  {
    if cs == [] || cs[0] != ".." then 0 else 1 + LeadingDots(cs[1..])
  }

  predicate AllDots(cs: Path) {
    LeadingDots(cs) == |cs|
  }

  /** How far find gets: the last node it looked at, and the components it could not follow.  Trailing
      ".." are not followed. */
  datatype Walked = Walked(q: Path, rest: Path)

  function Walk(keys: set<Path>, p: Path, cs: Path): Walked
    decreases |cs|
  {
    var k := LeadingDots(cs);
    if k == |cs| then Walked(p, cs)
    else if Up(p, k) + [cs[k]] in keys then Walk(keys, Up(p, k) + [cs[k]], cs[k + 1..])
    else Walked(Up(p, k), cs[k..])
  }

  /** The last node with data that find came down to, and the components left from there. */
  datatype Match = NoMatch | Match(m: Path, left: Path)

  function Best(keys: set<Path>, bound: set<Path>, p: Path, cs: Path, best: Match): Match
    decreases |cs|
  {
    var k := LeadingDots(cs);
    if k == |cs| then best
    else
      var q := Up(p, k) + [cs[k]];
      if q in keys then
        Best(keys, bound, q, cs[k + 1..], if q in bound then Match(q, cs[k + 1..]) else best)
      else best
  }

  function Lookup(keys: set<Path>, bound: set<Path>, cs: Path): Match {
    Best(keys, bound, [], cs, if [] in bound then Match([], cs) else NoMatch)
  }

  /** Where an insert puts its data and a remove takes it from. */
  function Addressed(keys: set<Path>, cs: Path): Path {
    var w := Walk(keys, [], cs);
    if AllDots(w.rest) then w.q else Norm(w.q, w.rest)
  }

  lemma {:induction false} DotsAre(cs: Path)
    requires AllDots(cs)
    ensures cs == Dots(|cs|)
  {
    if cs != [] { DotsAre(cs[1..]); }
  }

  lemma {:induction false} SplitDots(cs: Path)
    ensures cs == Dots(LeadingDots(cs)) + cs[LeadingDots(cs)..]
  {
    hide Dots, LeadingDots;
    var k := LeadingDots(cs);
    assert cs[..k] == Dots(k);
    assert cs == cs[..k] + cs[k..];
  }

  /** Components with k leading ".." and then another one, as toNext delivers them. */
  lemma DotsThen(k: nat, c: string, rest: Path)
    requires c != ".."
    ensures var cs := Dots(k) + ([c] + rest);
      LeadingDots(cs) == k < |cs| && cs[k] == c && cs[k + 1..] == rest && cs[k..] == [c] + rest
  {
    var cs := Dots(k) + ([c] + rest);
    assert cs[k] == c;
    assert LeadingDots(cs) <= k;
  }

  lemma OnlyDots(k: nat)
    ensures AllDots(Dots(k) + []) && Dots(k) + [] == Dots(k)
  {}

  lemma NotAllDots(c: string, rest: Path)
    requires c != ".."
    ensures !AllDots([c] + rest)
  {
    assert ([c] + rest)[0] == c;
  }

  /** One step of following components lexically. */
  lemma NormStep(p: Path, cs: Path)
    requires !AllDots(cs)
    ensures var k := LeadingDots(cs); Norm(p, cs) == Norm(Up(p, k) + [cs[k]], cs[k + 1..]) == Norm(Up(p, k), cs[k..])
  {
    var k := LeadingDots(cs);
    SplitDots(cs);
    NormDots(p, k, cs[k..]);
    assert cs[k..][0] == cs[k] && cs[k..][1..] == cs[k + 1..];
  }

  /** The unfollowed components lead from the last node to where the whole path leads. */
  lemma {:induction false} WalkLeads(keys: set<Path>, p: Path, cs: Path)
    ensures Norm(Walk(keys, p, cs).q, Walk(keys, p, cs).rest) == Norm(p, cs)
    decreases |cs|
  {
    hide Norm;
    var k := LeadingDots(cs);
    if k < |cs| {
      NormStep(p, cs);
      if Up(p, k) + [cs[k]] in keys { WalkLeads(keys, Up(p, k) + [cs[k]], cs[k + 1..]); }
    }
  }

  /** A match and the components left from it lead to where the whole path leads. */
  lemma {:induction false} BestLeads(keys: set<Path>, bound: set<Path>, p: Path, cs: Path, best: Match, target: Path)
    requires Norm(p, cs) == target && (best.Match? ==> Norm(best.m, best.left) == target)
    ensures var b := Best(keys, bound, p, cs, best); b.Match? ==> Norm(b.m, b.left) == target
    decreases |cs|
  {
    hide Norm;
    var k := LeadingDots(cs);
    if k < |cs| {
      NormStep(p, cs);
      var q := Up(p, k) + [cs[k]];
      if q in keys {
        BestLeads(keys, bound, q, cs[k + 1..], if q in bound then Match(q, cs[k + 1..]) else best, target);
      }
    }
  }

  lemma LookupLeads(keys: set<Path>, bound: set<Path>, cs: Path)
    ensures var b := Lookup(keys, bound, cs); b.Match? ==> Norm(b.m, b.left) == Norm([], cs)
  {
    BestLeads(keys, bound, [], cs, if [] in bound then Match([], cs) else NoMatch, Norm([], cs));
  }

  /** What find does not follow is all that is not there on the way. */
  lemma {:induction false} WalkVisited(keys: set<Path>, p: Path, cs: Path)
    ensures var w := Walk(keys, p, cs);
      keys + Visited(p, cs) == keys + if AllDots(w.rest) then {} else Visited(w.q, w.rest)
    decreases |cs|
  {
    hide Visited, LeadingDots;
    var k := LeadingDots(cs);
    SplitDots(cs);
    VisitedDots(p, k, cs[k..]);
    VisitedNext(Up(p, k), "", []);
    if k < |cs| {
      assert cs[k..] == [cs[k]] + cs[k + 1..];
      VisitedNext(Up(p, k), cs[k], cs[k + 1..]);
      if Up(p, k) + [cs[k]] in keys {
        WalkVisited(keys, Up(p, k) + [cs[k]], cs[k + 1..]);
      } else {
        NotAllDots(cs[k], cs[k + 1..]);
      }
    }
  }

  /** insert and remove address the path that the components name, except exactly when the path ends in
      ".." behind an existing node other than the root: then they address that node instead. */
  lemma AddressedExact(keys: set<Path>, cs: Path)
    ensures var w := Walk(keys, [], cs);
      Addressed(keys, cs) == Norm([], cs) <==> !(AllDots(w.rest) && w.rest != [] && w.q != [])
  {
    var w := Walk(keys, [], cs);
    WalkLeads(keys, [], cs);
    if AllDots(w.rest) {
      DotsAre(w.rest);
      NormDots(w.q, |w.rest|, []);
      assert Dots(|w.rest|) + [] == w.rest;
    }
  }

  /** With "/a" in the tree, "/a/.." addresses "/a" although it names the root. */
  lemma TrailingDotsMislead()
    ensures Addressed({[], ["a"]}, ["a", ".."]) == ["a"] && Norm([], ["a", ".."]) == []
  {
    var keys, cs: Path := {[], ["a"]}, ["a", ".."];
    assert LeadingDots(cs) == 0 && Up([], 0) + [cs[0]] == ["a"] && cs[1..] == [".."];
    assert LeadingDots([".."]) == 1;
    assert Walk(keys, [], cs) == Walk(keys, ["a"], [".."]) == Walked(["a"], [".."]);
    assert Norm([], cs) == Norm([] + ["a"], cs[1..]) == Norm(Up(["a"], 1), [".."][1..]) == Up(["a"], 1);
  }

  /** What find leaves of the path behind its match: nothing if it got to the match with only ".." to go. */
  function Remaining(w: Walked, b: Match): Path
    requires b.Match?
  {
    if AllDots(w.rest) && b.m == w.q then [] else b.left
  }

  /** The match and what is left lead to where the path leads, except exactly when the path ends in ".."
      behind a node other than the root that is itself the match. */
  lemma RemainingExact(keys: set<Path>, bound: set<Path>, cs: Path)
    ensures var w, b := Walk(keys, [], cs), Lookup(keys, bound, cs);
      b.Match? ==> (Norm(b.m, Remaining(w, b)) == Norm([], cs)
                    <==> !(AllDots(w.rest) && w.rest != [] && w.q != [] && b.m == w.q))
  {
    var w, b := Walk(keys, [], cs), Lookup(keys, bound, cs);
    LookupLeads(keys, bound, cs);
    AddressedExact(keys, cs);
  }

  lemma WalkEnds(keys: set<Path>, bound: set<Path>, p: Path, cs: Path, best: Match)
    requires AllDots(cs)
    ensures Walk(keys, p, cs) == Walked(p, cs) && Best(keys, bound, p, cs, best) == best
  {}

  // ----- a root without parent -----

  /** The next run of ".." climbs above the root of a tree where that leads nowhere: find then dereferences
      null, except that it may end one level above. */
  predicate Slips(d: nat, cs: Path) {
    var k := LeadingDots(cs);
    k > if k == |cs| then d + 1 else d
  }

  /** find comes to such a run while it follows the components. */
  predicate Falls(keys: set<Path>, p: Path, cs: Path)
    decreases |cs|
  {
    var k := LeadingDots(cs);
    || Slips(|p|, cs)
    || (k < |cs| && Up(p, k) + [cs[k]] in keys && Falls(keys, Up(p, k) + [cs[k]], cs[k + 1..]))
  }

  /** insert comes to one in find, or later on any climb above the root. */
  predicate InsertFalls(keys: set<Path>, cs: Path) {
    var w := Walk(keys, [], cs);
    Falls(keys, [], cs) || (!AllDots(w.rest) && !Stays(|w.q|, w.rest))
  }

  lemma {:induction false} StaysFrom(d: nat, cs: Path)
    ensures var k := LeadingDots(cs);
      Stays(d, cs) <==> k <= d && (k < |cs| ==> Stays(d - k + 1, cs[k + 1..]))
    decreases |cs|
  {
    if cs != [] && cs[0] == ".." && d > 0 {
      StaysFrom(d - 1, cs[1..]);
      var k := LeadingDots(cs[1..]);
      if k < |cs| - 1 { assert cs[1..][k + 1..] == cs[k + 2..]; }
    }
  }

  lemma {:induction false} PlainNeverFalls(keys: set<Path>, p: Path, cs: Path)
    requires ".." !in cs
    ensures !Falls(keys, p, cs)
    decreases |cs|
  {
    if cs != [] {
      assert cs[0] in cs && LeadingDots(cs) == 0;
      if Up(p, 0) + [cs[0]] in keys { PlainNeverFalls(keys, Up(p, 0) + [cs[0]], cs[1..]); }
    }
  }

  lemma {:induction false} PlainVisited(p: Path, cs: Path)
    requires ".." !in cs
    ensures forall q | q in Visited(p, cs) :: q <= p + cs
    decreases |cs|
  {
    if cs != [] {
      PlainVisited(p + [cs[0]], cs[1..]);
      assert p + [cs[0]] + cs[1..] == p + cs;
    }
  }

  /** All new paths are on the way to `a`. */
  ghost predicate OnTheWay(keys: set<Path>, keys': set<Path>, a: Path) {
    forall q | q in keys' && q !in keys :: q <= a
  }

  lemma PlainOnTheWay(keys: set<Path>, cs: Path)
    requires ".." !in cs
    ensures OnTheWay(keys, Reached(keys + {[]}, [], cs), cs)
  {
    PlainVisited([], cs);
    assert [] + cs == cs;
  }

  lemma PlainInsertNeverFalls(keys: set<Path>, cs: Path)
    requires ".." !in cs
    ensures !InsertFalls(keys, cs)
  {
    var w := Walk(keys, [], cs);
    PlainNeverFalls(keys, [], cs);
    PlainWalk(keys, [], cs);
    assert forall c | c in w.rest :: c in w.q + w.rest;
    PlainStays(|w.q|, w.rest);
  }

  // ----- paths without ".." -----

  ghost predicate PrefixClosed(keys: set<Path>) {
    forall p | p in keys && p != [] :: p[..|p| - 1] in keys
  }

  lemma PlainStep(keys: set<Path>, p: Path, cs: Path)
    requires cs != [] && cs[0] != ".."
    ensures Walk(keys, p, cs) == if p + [cs[0]] in keys then Walk(keys, p + [cs[0]], cs[1..]) else Walked(p, cs)
  {
    assert LeadingDots(cs) == 0 && Up(p, 0) == p && cs[0..] == cs;
  }

  lemma {:induction false} PlainWalk(keys: set<Path>, p: Path, cs: Path)
    requires ".." !in cs
    ensures var w := Walk(keys, p, cs);
      w.q + w.rest == p + cs && |w.q| >= |p| && (w.rest != [] ==> w.q + [w.rest[0]] !in keys)
    decreases |cs|
  {
    hide Walk, Best;
    if cs == [] {
      WalkEnds(keys, {}, p, cs, NoMatch);
    } else {
      PlainStep(keys, p, cs);
      if p + [cs[0]] in keys {
        PlainWalk(keys, p + [cs[0]], cs[1..]);
        assert p + [cs[0]] + cs[1..] == p + cs by { assert cs == [cs[0]] + cs[1..]; }
      }
    }
  }

  lemma PlainAddressed(keys: set<Path>, cs: Path)
    requires ".." !in cs
    ensures Addressed(keys, cs) == cs
  {
    var w := Walk(keys, [], cs);
    PlainWalk(keys, [], cs);
    assert w.q + w.rest == cs;
    assert ".." !in w.rest by { assert forall i | 0 <= i < |w.rest| :: w.rest[i] == cs[|w.q| + i]; }
    NormPlain(w.q, w.rest);
  }

  /** A walk over plain components that are all there ends with nothing left. */
  lemma {:induction false} PlainThere(keys: set<Path>, cs: Path)
    requires ".." !in cs && PrefixClosed(keys)
    ensures var w := Walk(keys, [], cs);
      w.q + w.rest == cs && (AllDots(w.rest) <==> w.rest == []) && (if w.rest == [] then w.q == cs else cs !in keys)
  {
    hide PrefixClosed, Walk;
    var w := Walk(keys, [], cs);
    PlainWalk(keys, [], cs);
    assert w.q + w.rest == cs;
    if w.rest != [] {
      assert w.rest[0] == cs[|w.q|] && w.rest[0] in cs;
      var q := w.q + [w.rest[0]];
      assert |q| <= |cs| && q == cs[..|q|];
      if cs in keys { PrefixIn(keys, cs, q); }
    }
  }

  lemma {:induction false} PrefixIn(keys: set<Path>, p: Path, q: Path)
    requires PrefixClosed(keys) && p in keys && q <= p
    ensures q in keys
    decreases |p|
  {
    if q != p { PrefixIn(keys, p[..|p| - 1], q); }
  }

  lemma {:induction false} EmptyAddressed(cs: Path)
    ensures Addressed({}, cs) == Norm([], cs)
  {
    AddressedExact({}, cs);
  }

  /** A walk that ends at a node with data has that node as its match, and only then. */
  lemma {:induction false} LastMatch(keys: set<Path>, bound: set<Path>, p: Path, cs: Path, best: Match)
    requires best.Match? ==> best.m in bound
    requires p in bound ==> best == Match(p, cs)
    ensures var w, b := Walk(keys, p, cs), Best(keys, bound, p, cs, best);
      && (b.Match? ==> b.m in bound)
      && (AllDots(w.rest) && w.q in bound ==> b == Match(w.q, w.rest))
    decreases |cs|
  {
    hide LeadingDots;
    var k := LeadingDots(cs);
    if k < |cs| {
      var q := Up(p, k) + [cs[k]];
      if q in keys {
        LastMatch(keys, bound, q, cs[k + 1..], if q in bound then Match(q, cs[k + 1..]) else best);
      } else {
        assert LeadingDots(cs[k..]) == 0 by { assert cs[k..][0] == cs[k]; }
      }
    }
  }

  /** Of the prefixes of `cs` up to length n, `b` is the longest with data, or there is none. */
  ghost predicate Longest(bound: set<Path>, cs: Path, n: nat, b: Match)
    requires n <= |cs|
  {
    match b
    case NoMatch => forall k | 0 <= k <= n :: cs[..k] !in bound
    case Match(m, left) =>
      |m| <= n && m + left == cs && m in bound && forall k | |m| < k <= n :: cs[..k] !in bound
  }

  lemma PlainBest(keys: set<Path>, bound: set<Path>, p: Path, cs: Path, best: Match)
    requires cs != [] && cs[0] != ".."
    ensures var q := p + [cs[0]];
      Best(keys, bound, p, cs, best) ==
        if q in keys then Best(keys, bound, q, cs[1..], if q in bound then Match(q, cs[1..]) else best) else best
  {
    assert LeadingDots(cs) == 0 && Up(p, 0) == p;
  }

  lemma LongestStep(bound: set<Path>, cs: Path, n: nat, best: Match)
    requires n < |cs| && Longest(bound, cs, n, best)
    ensures var q := cs[..n + 1]; Longest(bound, cs, n + 1, if q in bound then Match(q, cs[n + 1..]) else best)
  {}

  /** Below a missing node there is nothing. */
  lemma LongestStop(keys: set<Path>, bound: set<Path>, cs: Path, n: nat, best: Match)
    requires PrefixClosed(keys) && bound <= keys
    requires n < |cs| && Longest(bound, cs, n, best) && cs[..n + 1] !in keys
    ensures Longest(bound, cs, |cs|, best)
  {
    hide PrefixClosed;
    forall k | n < k <= |cs| ensures cs[..k] !in bound {
      if cs[..k] in bound { PrefixIn(keys, cs[..k], cs[..n + 1]); }
    }
  }

  /** For plain components the match is the longest prefix with data, and what is left is the rest. */
  lemma {:induction false} BestIsLongest(keys: set<Path>, bound: set<Path>, cs: Path, n: nat, best: Match)
    requires PrefixClosed(keys) && bound <= keys && n <= |cs| && ".." !in cs
    requires Longest(bound, cs, n, best)
    ensures Longest(bound, cs, |cs|, Best(keys, bound, cs[..n], cs[n..], best))
    decreases |cs| - n
  {
    hide PrefixClosed, Best, Walk, Longest;
    if n == |cs| {
      WalkEnds(keys, bound, cs[..n], cs[n..], best);
    } else {
      assert cs[n..][0] == cs[n] && cs[..n] + [cs[n]] == cs[..n + 1] && cs[n..][1..] == cs[n + 1..];
      PlainBest(keys, bound, cs[..n], cs[n..], best);
      if cs[..n + 1] in keys {
        LongestStep(bound, cs, n, best);
        BestIsLongest(keys, bound, cs, n + 1, if cs[..n + 1] in bound then Match(cs[..n + 1], cs[n + 1..]) else best);
      } else {
        LongestStop(keys, bound, cs, n, best);
      }
    }
  }

  lemma LookupIsLongest(keys: set<Path>, bound: set<Path>, cs: Path)
    requires PrefixClosed(keys) && bound <= keys && [] in keys && ".." !in cs
    ensures Longest(bound, cs, |cs|, Lookup(keys, bound, cs))
    ensures var w, b := Walk(keys, [], cs), Lookup(keys, bound, cs); b.Match? ==> Remaining(w, b) == b.left
  {
    assert cs[..0] == [] && cs[0..] == cs;
    BestIsLongest(keys, bound, cs, 0, if [] in bound then Match([], cs) else NoMatch);
    PlainThere(keys, cs);
    LastMatch(keys, bound, [], cs, if [] in bound then Match([], cs) else NoMatch);
  }
}
