/** Which guest path lies inside which (src/lib/model/catalogue.cpp). */
module Containment {
  predicate PathContains(outer: string, inner: string) {
    outer != inner && outer <= inner && inner[|outer|] == '/'
  }

  /** `inner` is `outer` or lies below it. */
  predicate Within(outer: string, inner: string) {
    inner == outer || PathContains(outer, inner)
  }

  lemma ContainmentIsStrictOrder(a: string, b: string, c: string)
    ensures !PathContains(a, a)
    ensures PathContains(a, b) ==> !PathContains(b, a)
    ensures PathContains(a, b) && PathContains(b, c) ==> PathContains(a, c)
  {
    if PathContains(a, b) && PathContains(b, c) {
      assert c[..|a|] == b[..|a|];
    }
  }

  /** The paths that contain a given one form a chain. */
  lemma ContainersFormAChain(a: string, b: string, inner: string)
    requires Within(a, inner) && Within(b, inner)
    ensures a == b || PathContains(a, b) || PathContains(b, a)
  {
    assert a == inner[..|a|] && b == inner[..|b|];
    if |a| < |b| {
      assert a == b[..|a|];
    } else if |b| < |a| {
      assert b == a[..|b|];
    }
  }

  lemma WithinIsTransitive(a: string, b: string, c: string)
    requires Within(a, b) && Within(b, c)
    ensures Within(a, c)
  {
    ContainmentIsStrictOrder(a, b, c);
  }

  /** Containment in the words of the path: what follows the outer one is a separator and more. */
  lemma ContainsAfterSeparator(outer: string, inner: string)
    ensures PathContains(outer, inner) <==> exists rest :: inner == outer + "/" + rest
  {
    if PathContains(outer, inner) {
      assert inner == outer + "/" + inner[|outer| + 1..];
    }
    if rest :| inner == outer + "/" + rest {
      assert inner[|outer|] == '/';
    }
  }

  // ---- Places ------------------------------------------------------------------------

  /** What is between the separators. */
  function Split(p: string): (parts: seq<string>)
    ensures |parts| >= 1
  {
    if p == "" then [""] else OneMore(Split(p[..|p| - 1]), p[|p| - 1])
  }

  /** A separator begins another part, and anything else goes on with the last one. */
  function OneMore(parts: seq<string>, c: char): (more: seq<string>)
    requires |parts| >= 1
    ensures |more| >= 1
  {
    if c == '/' then parts + [""] else parts[..|parts| - 1] + [parts[|parts| - 1] + [c]]
  }

  lemma OneMoreAtTheEnd(s: seq<string>, t: seq<string>, c: char)
    requires |t| >= 1
    ensures OneMore(s + t, c) == s + OneMore(t, c)
  {
    assert (s + t)[..|s + t| - 1] == s + t[..|t| - 1];
  }

  function NonEmpty(parts: seq<string>): seq<string> {
    if parts == [] then [] else
      var last := parts[|parts| - 1];
      NonEmpty(parts[..|parts| - 1]) + (if last == "" then [] else [last])
  }

  /** The place a path names: what it begins at, and then the names on the way. Doubled and trailing separators are
      nothing. */
  function Place(p: string): seq<string> {
    [Split(p)[0]] + NonEmpty(Split(p)[1..])
  }

  /** Neither a doubled separator nor one at the end. */
  predicate IsTidy(p: string) {
    forall k | 0 <= k < |p| && p[k] == '/' :: k + 1 < |p| && p[k + 1] != '/'
  }

  lemma {:induction false} SplitJoins(outer: string, rest: string)
    ensures Split(outer + "/" + rest) == Split(outer) + Split(rest)
  {
    hide OneMore;
    var p := outer + "/" + rest;
    if rest == "" {
      AllButLast(outer, "/");
      assert p == outer + "/" && outer + "" == outer;
      SeparatorBegins(Split(outer));
    } else {
      SplitJoins(outer, rest[..|rest| - 1]);
      AllButLast(outer + "/", rest);
      OneMoreAtTheEnd(Split(outer), Split(rest[..|rest| - 1]), rest[|rest| - 1]);
    }
  }

  lemma SeparatorBegins(parts: seq<string>)
    requires |parts| >= 1
    ensures OneMore(parts, '/') == parts + [""]
  {
  }

  lemma AllButLast(front: string, rest: string)
    requires rest != ""
    ensures (front + rest)[..|front + rest| - 1] == front + rest[..|rest| - 1]
  {
  }

  lemma {:induction false} NonEmptyOfSum(s: seq<string>, t: seq<string>)
    ensures NonEmpty(s + t) == NonEmpty(s) + NonEmpty(t)
  {
    if t == [] {
      assert s + t == s;
    } else {
      NonEmptyOfSum(s, t[..|t| - 1]);
      assert (s + t)[..|s + t| - 1] == s + t[..|t| - 1];
    }
  }

  /** More after a separator is further down. */
  lemma PlaceFurtherDown(outer: string, rest: string)
    ensures Place(outer + "/" + rest) == Place(outer) + NonEmpty(Split(rest))
  {
    hide Split, NonEmpty;
    SplitJoins(outer, rest);
    TailOfSum(Split(outer), Split(rest));
    NonEmptyOfSum(Split(outer)[1..], Split(rest));
  }

  lemma TailOfSum(s: seq<string>, t: seq<string>)
    requires s != []
    ensures (s + t)[0] == s[0] && (s + t)[1..] == s[1..] + t
  {
  }

  /** What one path contains by its text is at or below the place it names. */
  lemma ContainedIsInPlace(outer: string, inner: string)
    requires Within(outer, inner)
    ensures Place(outer) <= Place(inner)
  {
    hide Place;
    if outer != inner {
      ContainsAfterSeparator(outer, inner);
      var rest :| inner == outer + "/" + rest;
      PlaceFurtherDown(outer, rest);
    }
  }

  function Joined(parts: seq<string>): string
    requires |parts| >= 1
  {
    if |parts| == 1 then parts[0] else Joined(parts[..|parts| - 1]) + "/" + parts[|parts| - 1]
  }

  lemma {:induction false} JoinedIsPath(p: string)
    ensures Joined(Split(p)) == p
  {
    hide Joined;
    if p == "" {
      OnePart("");
    } else {
      JoinedIsPath(p[..|p| - 1]);
      JoinedOneMore(Split(p[..|p| - 1]), p[|p| - 1]);
      assert p == p[..|p| - 1] + [p[|p| - 1]];
    }
  }

  lemma OnePart(part: string)
    ensures Joined([part]) == part
  {
  }

  lemma JoinedOneMore(parts: seq<string>, c: char)
    requires |parts| >= 1
    ensures Joined(OneMore(parts, c)) == Joined(parts) + [c]
  {
    var more := OneMore(parts, c);
    if c == '/' {
      assert more[..|more| - 1] == parts;
      assert Joined(parts) + "/" + "" == Joined(parts) + [c];
    } else {
      assert more[..|more| - 1] == parts[..|parts| - 1];
      if |parts| > 1 {
        LastGrows(Joined(parts[..|parts| - 1]) + "/", parts[|parts| - 1], c);
      }
    }
  }

  lemma LastGrows(front: string, last: string, c: char)
    ensures front + (last + [c]) == front + last + [c]
  {
  }

  lemma {:induction false} JoinedSum(s: seq<string>, t: seq<string>)
    requires |s| >= 1 && |t| >= 1
    ensures Joined(s + t) == Joined(s) + "/" + Joined(t)
  {
    assert (s + t)[..|s + t| - 1] == s + t[..|t| - 1];
    if |t| == 1 {
      assert s + t[..0] == s;
    } else {
      JoinedSum(s, t[..|t| - 1]);
      var front, last := Joined(t[..|t| - 1]), t[|t| - 1];
      assert Joined(s) + "/" + front + "/" + last == Joined(s) + "/" + (front + "/" + last);
    }
  }

  predicate NothingDoubled(p: string) {
    forall k | 0 <= k < |p| - 1 :: p[k] != '/' || p[k + 1] != '/'
  }

  /** Between the first part and the last none is empty, and the last is only after a separator. */
  lemma {:induction false} PartsAreNames(p: string)
    requires NothingDoubled(p)
    ensures var parts := Split(p);
            && (forall k | 1 <= k < |parts| - 1 :: parts[k] != "")
            && (|parts| > 1 && parts[|parts| - 1] == "" ==> p != "" && p[|p| - 1] == '/')
  {
    if p != "" {
      var short := p[..|p| - 1];
      assert forall k | 0 <= k < |short| :: short[k] == p[k];
      PartsAreNames(short);
      if short != "" && p[|p| - 1] == '/' {
        assert p[|short| - 1] == short[|short| - 1];
      }
    }
  }

  lemma {:induction false} AllAreKept(parts: seq<string>)
    requires forall k | 0 <= k < |parts| :: parts[k] != ""
    ensures NonEmpty(parts) == parts
  {
    if parts != [] {
      AllAreKept(parts[..|parts| - 1]);
      assert parts == parts[..|parts| - 1] + [parts[|parts| - 1]];
    }
  }

  lemma TidyIsItsPlace(p: string)
    requires IsTidy(p)
    ensures Place(p) == Split(p)
  {
    assert NothingDoubled(p);
    PartsAreNames(p);
    var parts := Split(p);
    assert forall k | 1 <= k < |parts| :: parts[k] != "";
    AllAreKept(parts[1..]);
    assert parts == [parts[0]] + parts[1..];
  }

  /** A path whose parts begin with those of another lies within it. */
  lemma PartsSayWithin(outer: string, inner: string)
    requires Split(outer) <= Split(inner)
    ensures Within(outer, inner)
  {
    hide Split, Joined, PathContains;
    JoinedIsPath(outer);
    JoinedIsPath(inner);
    var rest := Split(inner)[|Split(outer)|..];
    assert Split(inner) == Split(outer) + rest;
    if rest == [] {
      assert Split(inner) == Split(outer);
    } else {
      JoinedSum(Split(outer), rest);
      ContainsAfterSeparator(outer, inner);
      assert inner == outer + "/" + Joined(rest);
    }
  }

  /** For tidy paths containment of the texts is containment of the places. */
  lemma TidyPathsSayTheirPlace(outer: string, inner: string)
    requires IsTidy(outer) && IsTidy(inner)
    ensures Within(outer, inner) <==> Place(outer) <= Place(inner)
  {
    hide Place, IsTidy, Split, Within;
    TidyIsItsPlace(outer);
    TidyIsItsPlace(inner);
    if Within(outer, inner) {
      ContainedIsInPlace(outer, inner);
    }
    if Split(outer) <= Split(inner) {
      PartsSayWithin(outer, inner);
    }
  }
}

/** Adding up measured places without counting a byte twice (src/lib/ops/usage.cpp). */
module SpaceUsage {
  import opened Containment

  const U64: int := 0x1_0000_0000_0000_0000

  /** One measured place of the catalogue. */
  datatype Entry = Entry(path: string, title: string, bytes: nat, containsOthers: bool)

  /** One row of the breakdown by directory. */
  datatype Directory = Directory(path: string, bytes: nat, depth: nat, attributedBytes: nat, attributedTo: string)

  // ---- What the guest holds -------------------------------------------------------

  /** One file or directory of the guest with the bytes that are its own. */
  datatype Node = Node(path: string, size: nat)

  /** `node` is at or below the place that `path` names. */
  predicate Below(path: string, node: string) {
    Place(path) <= Place(node)
  }

  /** What `du` answers for a path: the size of everything at the place it names or below it. */
  function Du(tree: seq<Node>, path: string): nat {
    if tree == [] then 0 else
      var node := tree[|tree| - 1];
      Du(tree[..|tree| - 1], path) + (if Below(path, node.path) then node.size else 0)
  }

  predicate Covered(entries: seq<Entry>, path: string) {
    exists k | 0 <= k < |entries| :: Below(entries[k].path, path)
  }

  /** The size of the nodes at least one entry covers, each node counted once. */
  function CoveredSize(tree: seq<Node>, entries: seq<Entry>): nat {
    if tree == [] then 0 else
      var node := tree[|tree| - 1];
      CoveredSize(tree[..|tree| - 1], entries) + (if Covered(entries, node.path) then node.size else 0)
  }

  function TreeSize(tree: seq<Node>): nat {
    if tree == [] then 0 else TreeSize(tree[..|tree| - 1]) + tree[|tree| - 1].size
  }

  /** Every entry says what `du` answered for its path, and an entry `du` found empty is not in the report. */
  predicate Measured(tree: seq<Node>, entries: seq<Entry>) {
    forall k | 0 <= k < |entries| :: entries[k].bytes == Du(tree, entries[k].path) && entries[k].bytes > 0
  }

  // ---- What the code adds up -------------------------------------------------------

  /** No entry contains this path. */
  predicate Outermost(entries: seq<Entry>, path: string) {
    forall k | 0 <= k < |entries| :: !PathContains(entries[k].path, path)
  }

  /** The bytes of those of `some` that no entry of `all` contains. */
  function OutermostBytes(all: seq<Entry>, some: seq<Entry>): nat {
    if some == [] then 0 else
      var e := some[|some| - 1];
      OutermostBytes(all, some[..|some| - 1]) + (if Outermost(all, e.path) then e.bytes else 0)
  }

  /** One of the places is in the other. */
  predicate Overlap(a: string, b: string) {
    Place(a) <= Place(b) || Place(b) <= Place(a)
  }

  /** No two entries that nothing contains name places of which one is in the other. */
  predicate OutermostApart(all: seq<Entry>, some: seq<Entry>) {
    forall i, j | 0 <= i < j < |some| && Outermost(all, some[i].path) && Outermost(all, some[j].path) ::
      !Overlap(some[i].path, some[j].path)
  }

  function Inside(directory: string, entries: seq<Entry>): (r: seq<Entry>)
    ensures forall k | 0 <= k < |r| :: r[k] in entries && Within(directory, r[k].path)
    ensures forall k | 0 <= k < |entries| && Within(directory, entries[k].path) :: entries[k] in r
  {
    if entries == [] then [] else
      var e := entries[|entries| - 1];
      Inside(directory, entries[..|entries| - 1]) + (if Within(directory, e.path) then [e] else [])
  }

  // ---- The sum is the measure of the union ------------------------------------------

  /** How many of `some` are outermost and cover `path`. */
  function Covering(all: seq<Entry>, some: seq<Entry>, path: string): nat {
    if some == [] then 0 else
      var e := some[|some| - 1];
      Covering(all, some[..|some| - 1], path) + (if Outermost(all, e.path) && Below(e.path, path) then 1 else 0)
  }

  function OutermostDu(tree: seq<Node>, all: seq<Entry>, some: seq<Entry>): nat {
    if some == [] then 0 else
      var e := some[|some| - 1];
      OutermostDu(tree, all, some[..|some| - 1]) + (if Outermost(all, e.path) then Du(tree, e.path) else 0)
  }

  lemma {:induction false} OutermostBytesAreDu(tree: seq<Node>, all: seq<Entry>, some: seq<Entry>)
    requires Measured(tree, some)
    ensures OutermostBytes(all, some) == OutermostDu(tree, all, some)
  {
    if some != [] {
      OutermostBytesAreDu(tree, all, some[..|some| - 1]);
    }
  }

  /** Summed node by node instead of entry by entry. */
  lemma {:induction false} OneMoreNode(tree: seq<Node>, all: seq<Entry>, some: seq<Entry>)
    requires tree != []
    ensures var node := tree[|tree| - 1];
            OutermostDu(tree, all, some) ==
            OutermostDu(tree[..|tree| - 1], all, some) + node.size * Covering(all, some, node.path)
  {
    hide Outermost, Below, Du;
    if some != [] {
      var node, front, e := tree[|tree| - 1], some[..|some| - 1], some[|some| - 1];
      OneMoreNode(tree, all, front);
      OneMoreCount(node.size, Covering(all, front, node.path));
      DuOfOneMore(tree, e.path);
    }
  }

  lemma OneMoreCount(size: nat, count: nat)
    ensures size * (count + 1) == size * count + size
  {
  }

  lemma DuOfOneMore(tree: seq<Node>, path: string)
    requires tree != []
    ensures var node := tree[|tree| - 1];
            Du(tree, path) == Du(tree[..|tree| - 1], path) + (if Below(path, node.path) then node.size else 0)
  {
  }

  lemma {:induction false} OutermostDuOfNothing(all: seq<Entry>, some: seq<Entry>)
    ensures OutermostDu([], all, some) == 0
  {
    if some != [] {
      OutermostDuOfNothing(all, some[..|some| - 1]);
    }
  }

  /** Something outermost covers whatever is covered. */
  lemma {:induction false} OutermostCover(entries: seq<Entry>, k: nat, path: string) returns (o: nat)
    requires k < |entries| && Below(entries[k].path, path)
    ensures o < |entries| && Outermost(entries, entries[o].path) && Below(entries[o].path, path)
    decreases |entries[k].path|
  {
    if Outermost(entries, entries[k].path) {
      o := k;
    } else {
      var j :| 0 <= j < |entries| && PathContains(entries[j].path, entries[k].path);
      ContainedIsInPlace(entries[j].path, entries[k].path);
      o := OutermostCover(entries, j, path);
    }
  }

  lemma {:induction false} CoveringCounts(all: seq<Entry>, some: seq<Entry>, path: string, i: nat)
    requires i < |some| && Outermost(all, some[i].path) && Below(some[i].path, path)
    ensures Covering(all, some, path) >= 1
    ensures forall j | i < j < |some| && Outermost(all, some[j].path) && Below(some[j].path, path) ::
              Covering(all, some, path) >= 2
  {
    hide Below, Outermost;
    if i < |some| - 1 {
      CoveringCounts(all, some[..|some| - 1], path, i);
    }
  }

  lemma {:induction false} CoveringIsUnique(all: seq<Entry>, some: seq<Entry>, path: string)
    requires OutermostApart(all, some)
    ensures Covering(all, some, path) <= 1
    ensures Covering(all, some, path) == 1 ==>
              exists k | 0 <= k < |some| :: Outermost(all, some[k].path) && Below(some[k].path, path)
  {
    hide Outermost, Place, Within;
    if some != [] {
      var last, front := |some| - 1, some[..|some| - 1];
      CoveringIsUnique(all, front, path);
      if Covering(all, front, path) == 1 && Outermost(all, some[last].path) && Below(some[last].path, path) {
        var k :| 0 <= k < |front| && Outermost(all, front[k].path) && Below(front[k].path, path);
        TwoCoversOverlap(some[k].path, some[last].path, path);
        assert false;
      }
    }
  }

  lemma TwoCoversOverlap(a: string, b: string, path: string)
    requires Below(a, path) && Below(b, path)
    ensures Overlap(a, b)
  {
    hide Place;
  }

  /** Each covered node is counted, and once only if outermost places do not overlap. */
  lemma CoveringIsMembership(entries: seq<Entry>, path: string)
    ensures Covered(entries, path) ==> Covering(entries, entries, path) >= 1
    ensures OutermostApart(entries, entries) ==> Covering(entries, entries, path) == if Covered(entries, path) then 1 else 0
  {
    hide Below, Outermost, Overlap;
    if Covered(entries, path) {
      var k :| 0 <= k < |entries| && Below(entries[k].path, path);
      var o := OutermostCover(entries, k, path);
      CoveringCounts(entries, entries, path, o);
    }
    if OutermostApart(entries, entries) {
      CoveringIsUnique(entries, entries, path);
    }
  }

  lemma {:induction false} ApartSumIsUnion(tree: seq<Node>, entries: seq<Entry>)
    requires OutermostApart(entries, entries)
    ensures OutermostDu(tree, entries, entries) == CoveredSize(tree, entries)
  {
    if tree == [] {
      OutermostDuOfNothing(entries, entries);
    } else {
      var node := tree[|tree| - 1];
      ApartSumIsUnion(tree[..|tree| - 1], entries);
      OneMoreNode(tree, entries, entries);
      CoveringIsMembership(entries, node.path);
    }
  }

  function One(b: bool): nat {
    if b then 1 else 0
  }

  /** Two outermost entries of which one is in the place of the other. */
  predicate TwiceCounted(entries: seq<Entry>, outer: nat, inner: nat) {
    && outer < |entries| && inner < |entries| && outer != inner
    && Outermost(entries, entries[outer].path) && Outermost(entries, entries[inner].path)
    && Place(entries[outer].path) <= Place(entries[inner].path)
  }

  lemma RepeatedCovering(entries: seq<Entry>, outer: nat, inner: nat, path: string)
    requires TwiceCounted(entries, outer, inner)
    ensures Covering(entries, entries, path) >= One(Covered(entries, path)) + One(Below(entries[inner].path, path))
  {
    hide Outermost, Place;
    CoveringIsMembership(entries, path);
    if Below(entries[inner].path, path) {
      CoveringCounts(entries, entries, path, if outer < inner then outer else inner);
    }
  }

  lemma ScaledCount(size: nat, count: nat, a: bool, b: bool)
    requires count >= One(a) + One(b)
    ensures size * count >= (if a then size else 0) + (if b then size else 0)
  {
    assert size * count >= size * (One(a) + One(b));
  }

  /** What an outermost entry has in the place of another is counted at least twice. */
  lemma {:induction false} RepeatedSumExceeds(tree: seq<Node>, entries: seq<Entry>, outer: nat, inner: nat)
    requires TwiceCounted(entries, outer, inner)
    ensures OutermostDu(tree, entries, entries) >= CoveredSize(tree, entries) + Du(tree, entries[inner].path)
  {
    hide TwiceCounted, Covered, Below;
    assert inner < |entries| by {
      TwiceCountedInside(entries, outer, inner);
    }
    if tree == [] {
      OutermostDuOfNothing(entries, entries);
    } else {
      var node := tree[|tree| - 1];
      RepeatedSumExceeds(tree[..|tree| - 1], entries, outer, inner);
      OneMoreNode(tree, entries, entries);
      RepeatedCovering(entries, outer, inner, node.path);
      ScaledCount(node.size, Covering(entries, entries, node.path),
                  Covered(entries, node.path), Below(entries[inner].path, node.path));
    }
  }

  lemma TwiceCountedInside(entries: seq<Entry>, outer: nat, inner: nat)
    requires TwiceCounted(entries, outer, inner)
    ensures inner < |entries|
  {
  }

  /** The bytes of the entries nothing contains are the size of all that any entry covers, each node once, exactly when
      no two of those entries measure places of which one is in the other. */
  lemma SumIsMeasureOfUnion(tree: seq<Node>, entries: seq<Entry>)
    requires Measured(tree, entries)
    ensures OutermostBytes(entries, entries) == CoveredSize(tree, entries) <==> OutermostApart(entries, entries)
  {
    hide Outermost, Place, Within, Du, CoveredSize, OutermostBytes, OutermostDu;
    OutermostBytesAreDu(tree, entries, entries);
    if OutermostApart(entries, entries) {
      ApartSumIsUnion(tree, entries);
    } else {
      var i, j :| 0 <= i < j < |entries| && Outermost(entries, entries[i].path) && Outermost(entries, entries[j].path) &&
        Overlap(entries[i].path, entries[j].path);
      if Place(entries[i].path) <= Place(entries[j].path) {
        RepeatedSumExceeds(tree, entries, i, j);
      } else {
        RepeatedSumExceeds(tree, entries, j, i);
      }
    }
  }

  lemma {:induction false} CoveredSizeIsBounded(tree: seq<Node>, entries: seq<Entry>)
    ensures CoveredSize(tree, entries) <= TreeSize(tree)
  {
    if tree != [] {
      CoveredSizeIsBounded(tree[..|tree| - 1], entries);
    }
  }

  /** What entries inside a directory cover lies inside it, so it is never more than `du` answers for the directory. */
  lemma {:induction false} AttributionFits(tree: seq<Node>, directory: string, entries: seq<Entry>)
    ensures CoveredSize(tree, Inside(directory, entries)) <= Du(tree, directory)
  {
    if tree != [] {
      var node, inside := tree[|tree| - 1], Inside(directory, entries);
      AttributionFits(tree[..|tree| - 1], directory, entries);
      if Covered(inside, node.path) {
        var k :| 0 <= k < |inside| && Below(inside[k].path, node.path);
        ContainedIsInPlace(directory, inside[k].path);
      }
    }
  }

  /** Where one place is in another, the text of its path shows it. */
  predicate Shows(a: string, b: string) {
    Overlap(a, b) ==> PathContains(a, b) || PathContains(b, a)
  }

  /** No two paths name places that overlap without showing it; in particular no path repeats. */
  predicate OverlapsShow(entries: seq<Entry>) {
    forall i, j | 0 <= i < j < |entries| :: Shows(entries[i].path, entries[j].path)
  }

  lemma {:induction false} InsideStillShows(directory: string, entries: seq<Entry>)
    requires OverlapsShow(entries)
    ensures OverlapsShow(Inside(directory, entries))
  {
    hide Shows, Within;
    if entries != [] {
      var front := entries[..|entries| - 1];
      InsideStillShows(directory, front);
      forall k | 0 <= k < |Inside(directory, front)|
        ensures Shows(Inside(directory, front)[k].path, entries[|entries| - 1].path)
      {
        var i :| 0 <= i < |front| && front[i] == Inside(directory, front)[k];
      }
    }
  }

  lemma ShownIsApart(entries: seq<Entry>)
    requires OverlapsShow(entries)
    ensures OutermostApart(entries, entries)
  {
    hide Overlap, PathContains;
    assert forall i, j | 0 <= i < j < |entries| :: Shows(entries[i].path, entries[j].path);
  }

  /** Paths without doubled or trailing slashes overlap in secret only if one repeats. */
  lemma PlacesShow(entries: seq<Entry>)
    requires forall k | 0 <= k < |entries| :: IsTidy(entries[k].path)
    ensures OverlapsShow(entries) <==> forall i, j | 0 <= i < j < |entries| :: entries[i].path != entries[j].path
  {
    hide Place, IsTidy;
    forall i, j | 0 <= i < j < |entries|
      ensures entries[i].path != entries[j].path ==> Shows(entries[i].path, entries[j].path)
    {
      TidyPathsSayTheirPlace(entries[i].path, entries[j].path);
      TidyPathsSayTheirPlace(entries[j].path, entries[i].path);
    }
    if i, j :| 0 <= i < j < |entries| && entries[i].path == entries[j].path {
      assert !Shows(entries[i].path, entries[j].path);
    }
  }

  /** A home that ends in a slash, beside one that does not: two entries for one place, which are added up twice. */
  lemma SlashCountsTwice(home: string, rest: string, bytes: nat)
    requires rest != "" && rest[0] != '/' && bytes > 0
    ensures var entries := [Entry(home + "/" + rest, "", bytes, false), Entry(home + "/" + "/" + rest, "", bytes, false)];
            var tree := [Node(home + "/" + rest, bytes)];
            && Measured(tree, entries) && !OverlapsShow(entries)
            && CoveredSize(tree, entries) == bytes && OutermostBytes(entries, entries) == 2 * bytes
  {
    hide Place;
    var first, second := Entry(home + "/" + rest, "", bytes, false), Entry(home + "/" + "/" + rest, "", bytes, false);
    var node := Node(first.path, bytes);
    SlashChangesNothing(home, rest);
    SlashSeparates(home, rest);
    TwoOfOneSize(first, second, node);
  }

  lemma TwoOfOneSize(first: Entry, second: Entry, node: Node)
    requires Place(first.path) == Place(second.path) == Place(node.path)
    requires first.path != second.path && !PathContains(first.path, second.path) && !PathContains(second.path, first.path)
    requires first.bytes == second.bytes == node.size > 0
    ensures var entries := [first, second];
            && Measured([node], entries) && !OverlapsShow(entries)
            && CoveredSize([node], entries) == node.size && OutermostBytes(entries, entries) == 2 * node.size
  {
    hide Place, PathContains;
    var entries := [first, second];
    ContainmentIsStrictOrder(first.path, first.path, first.path);
    ContainmentIsStrictOrder(second.path, second.path, second.path);
    assert Outermost(entries, first.path) && Outermost(entries, second.path);
    assert !Shows(entries[0].path, entries[1].path);
    assert entries[..1] == [first] && [first][..0] == [];
    assert OutermostBytes(entries, [first]) == node.size;
    assert Below(entries[0].path, node.path) && Below(second.path, node.path);
    OneNode(node, first.path, entries);
    OneNode(node, second.path, entries);
  }

  lemma OneNode(node: Node, path: string, entries: seq<Entry>)
    ensures Below(path, node.path) ==> Du([node], path) == node.size
    ensures Covered(entries, node.path) ==> CoveredSize([node], entries) == node.size
  {
    hide Below, Covered;
    assert [node][..0] == [];
    assert Du([node][..0], path) == 0 && CoveredSize([node][..0], entries) == 0;
  }

  lemma SlashChangesNothing(home: string, rest: string)
    ensures Place(home + "/" + rest) == Place(home + "/" + "/" + rest)
  {
    hide Place, Split, NonEmpty;
    PlaceFurtherDown(home, rest);
    PlaceFurtherDown(home + "/", rest);
    SlashIsNoPlace(home);
  }

  lemma SlashIsNoPlace(home: string)
    ensures Place(home + "/") == Place(home)
  {
    hide Place;
    PlaceFurtherDown(home, "");
    assert home + "/" + "" == home + "/";
    assert Split("") == [""] && NonEmpty([""][..0]) == [] && NonEmpty([""]) == [];
  }

  lemma SlashSeparates(home: string, rest: string)
    requires rest != "" && rest[0] != '/'
    ensures var a, b := home + "/" + rest, home + "/" + "/" + rest;
            a != b && !PathContains(a, b) && !PathContains(b, a)
  {
    var a, b := home + "/" + rest, home + "/" + "/" + rest;
    assert a[|home| + 1] == rest[0] && b[|home| + 1] == '/';
  }

  /** For a row of the breakdown: the bytes attributed are those of the nodes under it that entries inside it cover, and
      so no more than the row's own. Any list whose overlaps show will do, in particular one that was cut short. */
  lemma AttributionIsMeasureOfUnion(tree: seq<Node>, directory: string, entries: seq<Entry>)
    requires Measured(tree, entries) && OverlapsShow(entries)
    ensures var inside := Inside(directory, entries);
            OutermostBytes(inside, inside) == CoveredSize(tree, inside) <= Du(tree, directory)
  {
    var inside := Inside(directory, entries);
    InsideStillShows(directory, entries);
    forall k | 0 <= k < |inside|
      ensures inside[k].bytes == Du(tree, inside[k].path) && inside[k].bytes > 0
    {
      var i :| 0 <= i < |entries| && entries[i] == inside[k];
    }
    ShownIsApart(inside);
    SumIsMeasureOfUnion(tree, inside);
    AttributionFits(tree, directory, entries);
  }

  // ---- The code ---------------------------------------------------------------------

  /** What a 64-bit counter holds of a sum: it starts over at 2^64. */
  function Wrapped(sum: nat): nat {
    if sum < U64 then sum else Wrapped(sum - U64)
  }

  lemma {:induction false} WrapsAt64Bits(sum: nat)
    ensures Wrapped(sum) == sum % 0x1_0000_0000_0000_0000
  {
    if sum >= U64 {
      WrapsAt64Bits(sum - U64);
    }
  }

  function Plus(counter: nat, bytes: nat): nat {
    Wrapped(counter + bytes)
  }

  lemma {:induction false} PlusAccumulates(a: nat, b: nat)
    ensures Plus(Wrapped(a), b) == Wrapped(a + b)
  {
    if a >= U64 {
      PlusAccumulates(a - U64, b);
    }
  }

  lemma {:induction false} InsideOfPrefix(directory: string, entries: seq<Entry>, n: nat)
    requires n <= |entries|
    ensures Inside(directory, entries[..n]) <= Inside(directory, entries)
    decreases |entries|
  {
    if n == |entries| {
      assert entries[..n] == entries;
    } else {
      var front := entries[..|entries| - 1];
      assert front[..n] == entries[..n];
      InsideOfPrefix(directory, front, n);
    }
  }

  lemma InsideOfOneMore(directory: string, entries: seq<Entry>, i: nat, done: nat)
    requires i < |entries| && done == |Inside(directory, entries[..i])|
    ensures var inside := Inside(directory, entries);
            if Within(directory, entries[i].path) then
              done < |inside| && inside[done] == entries[i] && Inside(directory, entries[..i + 1]) == inside[..done + 1]
            else done <= |inside| && Inside(directory, entries[..i + 1]) == inside[..done]
  {
    var upTo := Inside(directory, entries[..i + 1]);
    assert entries[..i + 1][..i] == entries[..i];
    InsideOfPrefix(directory, entries, i + 1);
    assert upTo == Inside(directory, entries)[..|upTo|];
  }

  /** The nested check of the source asks about every entry that lies inside; those are the ones in `Inside`. */
  lemma NestedMeansContained(directory: string, entries: seq<Entry>, path: string)
    ensures (exists k | 0 <= k < |entries| ::
               Within(directory, entries[k].path) && PathContains(entries[k].path, path))
       <==> !Outermost(Inside(directory, entries), path)
  {
    var inside := Inside(directory, entries);
    if !Outermost(inside, path) {
      var k :| 0 <= k < |inside| && PathContains(inside[k].path, path);
      var i :| 0 <= i < |entries| && entries[i] == inside[k];
    }
    if k :| 0 <= k < |entries| && Within(directory, entries[k].path) && PathContains(entries[k].path, path) {
      var i :| 0 <= i < |inside| && inside[i] == entries[k];
    }
  }

  /** After `done` rows the title is that of the first row, among the outermost ones, with the most bytes; a row
      without bytes never gives one. */
  predicate Titled(inside: seq<Entry>, done: nat, before: string, after: string, largest: nat)
    requires done <= |inside|
  {
    && (forall k | 0 <= k < done && Outermost(inside, inside[k].path) :: inside[k].bytes <= largest)
    && (largest == 0 ==> after == before)
    && (largest > 0 ==> exists k | 0 <= k < done :: FirstOfSize(inside, k, largest) && inside[k].title == after)
  }

  predicate FirstOfSize(inside: seq<Entry>, k: nat, size: nat)
    requires k < |inside|
  {
    && Outermost(inside, inside[k].path) && inside[k].bytes == size
    && forall j | 0 <= j < k && Outermost(inside, inside[j].path) :: inside[j].bytes < size
  }

  /** A row more: one that is not outermost changes nothing, a larger one gives the title. */
  lemma TitledByOneMore(inside: seq<Entry>, done: nat, before: string, after: string, largest: nat)
    requires done < |inside| && Titled(inside, done, before, after, largest)
    ensures var e := inside[done];
            if !Outermost(inside, e.path) || e.bytes <= largest then Titled(inside, done + 1, before, after, largest)
            else Titled(inside, done + 1, before, e.title, e.bytes)
  {
    hide Titled, Outermost;
    if Outermost(inside, inside[done].path) && inside[done].bytes > largest {
      LargerGivesTitle(inside, done, before, after, largest);
    } else {
      OthersKeepTitle(inside, done, before, after, largest);
    }
  }

  lemma OthersKeepTitle(inside: seq<Entry>, done: nat, before: string, after: string, largest: nat)
    requires done < |inside| && Titled(inside, done, before, after, largest)
    requires !Outermost(inside, inside[done].path) || inside[done].bytes <= largest
    ensures Titled(inside, done + 1, before, after, largest)
  {
    hide FirstOfSize, Outermost;
    if largest > 0 {
      var k :| 0 <= k < done && FirstOfSize(inside, k, largest) && inside[k].title == after;
    }
  }

  lemma LargerGivesTitle(inside: seq<Entry>, done: nat, before: string, after: string, largest: nat)
    requires done < |inside| && Titled(inside, done, before, after, largest)
    requires Outermost(inside, inside[done].path) && inside[done].bytes > largest
    ensures Titled(inside, done + 1, before, inside[done].title, inside[done].bytes)
  {
    hide Outermost;
    assert FirstOfSize(inside, done, inside[done].bytes);
  }

  lemma OutermostBytesOfOneMore(all: seq<Entry>, i: nat)
    requires i < |all|
    ensures OutermostBytes(all, all[..i + 1]) ==
            OutermostBytes(all, all[..i]) + (if Outermost(all, all[i].path) then all[i].bytes else 0)
  {
    assert all[..i + 1][..i] == all[..i];
  }

  /** The counter after one more row. */
  lemma CounterAfterOneMore(all: seq<Entry>, i: nat, counter: nat)
    requires i < |all| && counter == Wrapped(OutermostBytes(all, all[..i]))
    ensures Wrapped(OutermostBytes(all, all[..i + 1])) ==
            if Outermost(all, all[i].path) then Plus(counter, all[i].bytes) else counter
  {
    hide Wrapped, Plus, Outermost, OutermostBytes;
    var sum, more := OutermostBytes(all, all[..i]), OutermostBytes(all, all[..i + 1]);
    OutermostBytesOfOneMore(all, i);
    if Outermost(all, all[i].path) {
      PlusAccumulates(sum, all[i].bytes);
    } else {
      assert more == sum;
    }
  }

  lemma NothingAttributed(directory: string, entries: seq<Entry>, before: string)
    ensures Inside(directory, entries[..0]) == [] && Titled(Inside(directory, entries), 0, before, before, 0)
  {
  }

  /** The row says how many bytes inside it the entries account for, each once, and names the largest such entry. */
  ghost predicate Attributed(entries: seq<Entry>, directory: Directory, row: Directory) {
    var inside := Inside(directory.path, entries);
    && row == directory.(attributedBytes := row.attributedBytes, attributedTo := row.attributedTo)
    && row.attributedBytes == Wrapped(OutermostBytes(inside, inside))
    && exists largest: nat :: Titled(inside, |inside|, directory.attributedTo, row.attributedTo, largest)
  }

  /** How much of a fresh row the entries account for, and the title of the largest one that does. */
  method Attribute(directory: Directory, entries: seq<Entry>) returns (row: Directory)
    requires directory.attributedBytes == 0
    ensures Attributed(entries, directory, row)
  {
    hide PathContains, Outermost, Titled, Inside;
    ghost var inside := Inside(directory.path, entries);
    var bytes, title, largest := 0, directory.attributedTo, 0;
    ghost var done := 0;
    NothingAttributed(directory.path, entries, title);
    for i := 0 to |entries|
      invariant done <= |inside| && Inside(directory.path, entries[..i]) == inside[..done]
      invariant bytes == Wrapped(OutermostBytes(inside, inside[..done]))
      invariant Titled(inside, done, directory.attributedTo, title, largest)
    {
      var entry := entries[i];
      InsideOfOneMore(directory.path, entries, i, done);
      if !(entry.path == directory.path || PathContains(directory.path, entry.path)) {
        continue;
      }
      assert inside[done] == entry;
      NestedMeansContained(directory.path, entries, entry.path);
      CounterAfterOneMore(inside, done, bytes);
      TitledByOneMore(inside, done, directory.attributedTo, title, largest);
      done := done + 1;
      var nested := exists k | 0 <= k < |entries| ::
        Within(directory.path, entries[k].path) && PathContains(entries[k].path, entry.path);
      if nested {
        continue;
      }
      bytes := Plus(bytes, entry.bytes);
      if entry.bytes > largest {
        largest := entry.bytes;
        title := entry.title;
      }
    }
    assert entries[..|entries|] == entries;
    assert inside[..|inside|] == inside;
    row := directory.(attributedBytes := bytes, attributedTo := title);
  }

  predicate Descending<T>(s: seq<T>, bytes: T -> nat) {
    forall i, j | 0 <= i < j < |s| :: bytes(s[i]) >= bytes(s[j])
  }

  method InsertByBytes<T(==)>(s: seq<T>, x: T, bytes: T -> nat) returns (r: seq<T>)
    requires Descending(s, bytes)
    ensures Descending(r, bytes) && multiset(r) == multiset(s) + multiset{x}
  {
    hide Descending;
    var at := |s|;
    while at > 0 && bytes(s[at - 1]) < bytes(x)
      invariant 0 <= at <= |s|
      invariant forall k | at <= k < |s| :: bytes(s[k]) < bytes(x)
    {
      at := at - 1;
    }
    InsertionKeepsOrder(s, x, at, bytes);
    InsertionAddsOne(s, x, at);
    r := s[..at] + [x] + s[at..];
  }

  lemma InsertionAddsOne<T>(s: seq<T>, x: T, at: nat)
    requires at <= |s|
    ensures multiset(s[..at] + [x] + s[at..]) == multiset(s) + multiset{x}
  {
    assert s == s[..at] + s[at..];
  }

  lemma InsertionKeepsOrder<T>(s: seq<T>, x: T, at: nat, bytes: T -> nat)
    requires Descending(s, bytes) && at <= |s|
    requires at > 0 ==> bytes(s[at - 1]) >= bytes(x)
    requires forall k | at <= k < |s| :: bytes(s[k]) < bytes(x)
    ensures Descending(s[..at] + [x] + s[at..], bytes)
  {
    var r := s[..at] + [x] + s[at..];
    forall i, j | 0 <= i < j < |r|
      ensures bytes(r[i]) >= bytes(r[j])
    {
      var a, b := if i < at then i else i - 1, if j < at then j else j - 1;
      assert r[i] == if i == at then x else s[a];
      assert r[j] == if j == at then x else s[b];
      if i < at - 1 {
        assert bytes(s[i]) >= bytes(s[at - 1]);
      }
    }
  }

  /** `std::ranges::sort` with the largest first; elements of the same size may come in any order. */
  method SortByBytes<T(==)>(s: seq<T>, bytes: T -> nat) returns (r: seq<T>)
    ensures Descending(r, bytes) && multiset(r) == multiset(s)
  {
    r := [];
    for i := 0 to |s|
      invariant Descending(r, bytes) && multiset(r) == multiset(s[..i])
    {
      r := InsertByBytes(r, s[i], bytes);
      assert s[..i + 1] == s[..i] + [s[i]];
    }
    assert s[..|s|] == s;
  }

  class UsageReport {
    var entries: seq<Entry>
    var counted: nat
    var directories: seq<Directory>

    constructor (found: seq<Entry>)
      ensures entries == found && counted == 0 && directories == []
    {
      entries, counted, directories := found, 0, [];
    }

    /** Marks the entries that contain others, and adds up the ones that lie in no other. */
    method AccountForNesting()
      requires counted == 0
      modifies this`entries, this`counted
      ensures Marked(old(entries), entries, |entries|)
      ensures counted == Wrapped(OutermostBytes(old(entries), old(entries)))
    {
      ghost var all := entries;
      for i := 0 to |entries|
        invariant counted == 0 && Marked(all, entries, i)
      {
        var containsOthers := exists j | 0 <= j < |entries| :: PathContains(entries[i].path, entries[j].path);
        assert containsOthers == ContainsOthers(all, all[i].path);
        entries := entries[i := entries[i].(containsOthers := containsOthers)];
      }
      for i := 0 to |entries|
        invariant Marked(all, entries, |entries|)
        invariant counted == Wrapped(OutermostBytes(all, all[..i]))
      {
        var insideAnother := exists k | 0 <= k < |entries| :: PathContains(entries[k].path, entries[i].path);
        assert insideAnother == !Outermost(all, all[i].path);
        CounterAfterOneMore(all, i, counted);
        if !insideAnother {
          counted := Plus(counted, entries[i].bytes);
        }
      }
      assert all[..|all|] == all;
    }

    /** The rows `du` listed below the root, largest first and at most `top` of them unless `top` is zero. */
    method MeasureDirectories(found: seq<Directory>, top: nat)
      requires forall k | 0 <= k < |found| :: found[k].attributedBytes == 0
      modifies this`directories
      ensures if found == [] then directories == old(directories) else Breakdown(entries, found, directories, top)
    {
      if found == [] {
        return;
      }
      var rows: seq<Directory> := [];
      for i := 0 to |found|
        invariant Rows(entries, found[..i], rows)
      {
        assert found[..i + 1][..i] == found[..i];
        if found[i].depth != 0 {
          var row := Attribute(found[i], entries);
          assert (rows + [row])[..|rows|] == rows;
          rows := rows + [row];
        }
      }
      assert found[..|found|] == found;
      var sorted := SortByBytes(rows, RowBytes);
      directories := if top != 0 && |sorted| > top then sorted[..top] else sorted;
      assert directories == sorted[..Limit(|sorted|, top)];
    }

    /** The second half of a measurement, from the places that were found: order them, add them up, cut the list, and
        break the guest down by directory when a listing was asked for. Whatever finite tree the figures were measured
        on, the total and the figure of every row are measures of unions of its subtrees. */
    method Fill(byDirectory: bool, listing: seq<Directory>, top: nat)
      requires counted == 0 && directories == []
      requires forall k | 0 <= k < |listing| :: listing[k].attributedBytes == 0
      modifies this
      ensures Shown(old(entries), entries, top)
      ensures if byDirectory && listing != [] then Breakdown(entries, listing, directories, top) else directories == []
      ensures forall tree | Measured(tree, old(entries)) && OverlapsShow(old(entries)) && TreeSize(tree) < U64 ::
                && counted == CoveredSize(tree, old(entries))
                && forall k | 0 <= k < |directories| :: RowIsMeasure(tree, entries, directories[k])
    {
      hide Breakdown, Wrapped, OutermostBytes, CoveredSize, Descending, TreeSize, Measured, OverlapsShow, RowIsMeasure, Marked;
      ghost var found := entries;
      entries := SortByBytes(entries, EntryBytes);
      ghost var sorted := entries;
      AccountForNesting();
      ghost var marked := entries;
      if top != 0 && |entries| > top {
        entries := entries[..top];
      }
      assert entries == marked[..Limit(|sorted|, top)];
      if byDirectory {
        MeasureDirectories(listing, top);
      }
      forall tree | Measured(tree, found) && OverlapsShow(found) && TreeSize(tree) < U64
        ensures counted == CoveredSize(tree, found)
        ensures forall k | 0 <= k < |directories| :: RowIsMeasure(tree, entries, directories[k])
      {
        TotalIsMeasure(tree, found, sorted);
        MarksKeepMeasures(tree, sorted, marked, entries);
        if byDirectory && listing != [] {
          RowsAreMeasures(tree, entries, listing, directories, top);
        }
      }
    }
  }

  predicate ContainsOthers(entries: seq<Entry>, path: string) {
    exists k | 0 <= k < |entries| :: PathContains(path, entries[k].path)
  }

  /** The first `n` rows carry the mark they should, and nothing else has changed. */
  predicate Marked(before: seq<Entry>, after: seq<Entry>, n: int) {
    && |after| == |before| && n <= |before|
    && forall k | 0 <= k < |before| ::
        && after[k].path == before[k].path
        && after[k] == if k < n then before[k].(containsOthers := ContainsOthers(before, before[k].path)) else before[k]
  }

  function EntryBytes(e: Entry): nat {
    e.bytes
  }

  function RowBytes(d: Directory): nat {
    d.bytes
  }

  function Limit(size: nat, top: nat): (n: nat)
    ensures n <= size
  {
    if top != 0 && size > top then top else size
  }

  /** What is shown: all that was found, largest first, each marked against all of it, then cut to `top`. */
  ghost predicate Shown(found: seq<Entry>, shown: seq<Entry>, top: nat) {
    exists sorted, marked ::
      && multiset(sorted) == multiset(found) && Descending(sorted, EntryBytes)
      && Marked(sorted, marked, |sorted|) && shown == marked[..Limit(|marked|, top)]
  }

  /** What is shown is at most `top` entries unless that is zero, the largest that were found, largest first. */
  lemma ShownAreTheLargest(found: seq<Entry>, shown: seq<Entry>, top: nat)
    requires Shown(found, shown, top)
    ensures |shown| == if top == 0 || |found| <= top then |found| else top
    ensures forall i, j | 0 <= i < j < |shown| :: shown[i].bytes >= shown[j].bytes
  {
    var sorted: seq<Entry>, marked: seq<Entry> :| multiset(sorted) == multiset(found) && Descending(sorted, EntryBytes)
      && Marked(sorted, marked, |sorted|) && shown == marked[..Limit(|marked|, top)];
    assert |sorted| == |multiset(sorted)| == |multiset(found)| == |found|;
    forall i, j | 0 <= i < j < |shown|
      ensures shown[i].bytes >= shown[j].bytes
    {
      assert EntryBytes(sorted[i]) >= EntryBytes(sorted[j]);
      assert shown[i].bytes == sorted[i].bytes && shown[j].bytes == sorted[j].bytes;
    }
  }

  /** And so are the rows of the breakdown. */
  lemma RowsAreTheLargest(entries: seq<Entry>, found: seq<Directory>, shown: seq<Directory>, top: nat)
    requires Breakdown(entries, found, shown, top)
    ensures top != 0 ==> |shown| <= top
    ensures forall i, j | 0 <= i < j < |shown| :: shown[i].bytes >= shown[j].bytes
  {
    hide Rows;
    var rows, sorted :| Rows(entries, found, rows) && multiset(sorted) == multiset(rows)
      && Descending(sorted, RowBytes) && shown == sorted[..Limit(|sorted|, top)];
    forall i, j | 0 <= i < j < |shown|
      ensures shown[i].bytes >= shown[j].bytes
    {
      assert RowBytes(sorted[i]) >= RowBytes(sorted[j]);
    }
  }

  /** The rows of `found` below the root, each attributed. */
  ghost predicate Rows(entries: seq<Entry>, found: seq<Directory>, rows: seq<Directory>)
    decreases |found|
  {
    if found == [] then rows == [] else
      var last, front := found[|found| - 1], found[..|found| - 1];
      if last.depth == 0 then Rows(entries, front, rows)
      else rows != [] && Rows(entries, front, rows[..|rows| - 1]) && Attributed(entries, last, rows[|rows| - 1])
  }

  /** The attributed rows, largest first, cut to `top`. */
  ghost predicate Breakdown(entries: seq<Entry>, found: seq<Directory>, shown: seq<Directory>, top: nat) {
    exists rows, sorted ::
      && Rows(entries, found, rows) && multiset(sorted) == multiset(rows)
      && Descending(sorted, RowBytes) && shown == sorted[..Limit(|sorted|, top)]
  }

  /** A row's figure is the size of the nodes under it that the entries inside it cover, never more than `du` gives. */
  predicate RowIsMeasure(tree: seq<Node>, entries: seq<Entry>, row: Directory) {
    row.attributedBytes == CoveredSize(tree, Inside(row.path, entries)) <= Du(tree, row.path)
  }

  predicate HasPath(entries: seq<Entry>, path: string) {
    exists k | 0 <= k < |entries| :: entries[k].path == path
  }

  lemma {:induction false} CoveredSizeOfSamePaths(tree: seq<Node>, s: seq<Entry>, t: seq<Entry>)
    requires forall k | 0 <= k < |s| :: HasPath(t, s[k].path)
    requires forall k | 0 <= k < |t| :: HasPath(s, t[k].path)
    ensures CoveredSize(tree, s) == CoveredSize(tree, t)
  {
    if tree != [] {
      CoveredSizeOfSamePaths(tree[..|tree| - 1], s, t);
    }
  }

  lemma TwoPlacesCountTwice(t: seq<Entry>, i: nat, j: nat)
    requires i < j < |t| && t[i] == t[j]
    ensures multiset(t)[t[i]] >= 2
  {
    assert t == t[..j] + t[j..] && t[..j][i] == t[i] && t[j..][0] == t[i];
    assert t[i] in multiset(t[..j]) && t[i] in multiset(t[j..]);
  }

  lemma CountedTwiceHasTwoPlaces(s: seq<Entry>, a: nat) returns (b: nat)
    requires a < |s| && multiset(s)[s[a]] >= 2
    ensures b < |s| && b != a && s[b] == s[a]
  {
    var before, after := s[..a], s[a + 1..];
    assert s == before + [s[a]] + after;
    if s[a] in multiset(before) {
      b :| 0 <= b < |before| && before[b] == s[a];
    } else {
      assert s[a] in multiset(after);
      var k :| 0 <= k < |after| && after[k] == s[a];
      b := a + 1 + k;
    }
  }

  /** A reordering neither joins nor separates paths. */
  lemma PermutationStillShows(s: seq<Entry>, t: seq<Entry>)
    requires multiset(s) == multiset(t) && OverlapsShow(s)
    ensures OverlapsShow(t)
  {
    hide Overlap;
    forall i, j | 0 <= i < j < |t|
      ensures Shows(t[i].path, t[j].path)
    {
      assert t[i] in multiset(s) && t[j] in multiset(s);
      var a :| 0 <= a < |s| && s[a] == t[i];
      var b :| 0 <= b < |s| && s[b] == t[j];
      if t[i] == t[j] {
        TwoPlacesCountTwice(t, i, j);
        b := CountedTwiceHasTwoPlaces(s, a);
      }
      ShowsBothWays(t[i].path, t[j].path);
    }
  }

  lemma ShowsBothWays(a: string, b: string)
    ensures Shows(a, b) <==> Shows(b, a)
  {
  }

  lemma TotalIsMeasure(tree: seq<Node>, found: seq<Entry>, sorted: seq<Entry>)
    requires multiset(sorted) == multiset(found)
    requires Measured(tree, found) && OverlapsShow(found) && TreeSize(tree) < U64
    ensures Measured(tree, sorted) && OverlapsShow(sorted)
    ensures Wrapped(OutermostBytes(sorted, sorted)) == CoveredSize(tree, found)
  {
    forall k | 0 <= k < |sorted|
      ensures sorted[k] in found && HasPath(found, sorted[k].path)
    {
      assert sorted[k] in multiset(found);
    }
    forall k | 0 <= k < |found|
      ensures HasPath(sorted, found[k].path)
    {
      assert found[k] in multiset(sorted);
    }
    PermutationStillShows(found, sorted);
    CoveredSizeOfSamePaths(tree, sorted, found);
    ShownIsApart(sorted);
    SumIsMeasureOfUnion(tree, sorted);
    CoveredSizeIsBounded(tree, sorted);
  }

  /** Marks and cuts change no path and no figure. */
  lemma MarksKeepMeasures(tree: seq<Node>, sorted: seq<Entry>, marked: seq<Entry>, shown: seq<Entry>)
    requires Measured(tree, sorted) && OverlapsShow(sorted) && Marked(sorted, marked, |sorted|) && shown <= marked
    ensures Measured(tree, shown) && OverlapsShow(shown)
  {
    hide ContainsOthers, Du;
    assert forall k | 0 <= k < |shown| :: shown[k].path == sorted[k].path && shown[k].bytes == sorted[k].bytes;
  }

  lemma {:induction false} RowIsAttributed(entries: seq<Entry>, found: seq<Directory>, rows: seq<Directory>, row: Directory)
    requires Rows(entries, found, rows) && row in rows
    ensures exists k | 0 <= k < |found| :: Attributed(entries, found[k], row)
    decreases |found|
  {
    var last, front := found[|found| - 1], found[..|found| - 1];
    if last.depth == 0 {
      RowIsAttributed(entries, front, rows, row);
    } else if row != rows[|rows| - 1] {
      RowIsAttributed(entries, front, rows[..|rows| - 1], row);
    }
  }

  lemma {:induction false} DuIsBounded(tree: seq<Node>, path: string)
    ensures Du(tree, path) <= TreeSize(tree)
  {
    if tree != [] {
      DuIsBounded(tree[..|tree| - 1], path);
    }
  }

  lemma RowsAreMeasures(tree: seq<Node>, entries: seq<Entry>, found: seq<Directory>, shown: seq<Directory>, top: nat)
    requires Measured(tree, entries) && OverlapsShow(entries) && TreeSize(tree) < U64
    requires Breakdown(entries, found, shown, top)
    ensures forall k | 0 <= k < |shown| :: RowIsMeasure(tree, entries, shown[k])
  {
    var rows, sorted :| Rows(entries, found, rows) && multiset(sorted) == multiset(rows)
      && Descending(sorted, RowBytes) && shown == sorted[..Limit(|sorted|, top)];
    forall k | 0 <= k < |shown|
      ensures RowIsMeasure(tree, entries, shown[k])
    {
      assert shown[k] == sorted[k] && sorted[k] in multiset(rows);
      RowIsAttributed(entries, found, rows, shown[k]);
      AttributionIsMeasureOfUnion(tree, shown[k].path, entries);
      DuIsBounded(tree, shown[k].path);
    }
  }
}
