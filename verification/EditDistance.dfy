/** The "did you mean" suggestions (src/cli/lookup.cpp): a two-row Levenshtein distance, ignoring ASCII case. */
module EditDistance {
  const SUGGESTION_LIMIT := 4

  function Lower(c: char): char {
    if 'A' <= c <= 'Z' then c - 'A' + 'a' else c
  }

  function LowerAll(s: string): (r: string)
    ensures |r| == |s| && forall k | 0 <= k < |s| :: r[k] == Lower(s[k])
  {
    if s == [] then [] else LowerAll(s[..|s| - 1]) + [Lower(s[|s| - 1])]
  }

  function Min3(a: nat, b: nat, c: nat): nat {
    if a <= b && a <= c then a else if b <= c then b else c
  }

  function Cost(a: char, b: char): nat {
    if Lower(a) == Lower(b) then 0 else 1
  }

  /** A letter costs nothing against its other case, and everything else one. */
  lemma CaseIsFree(a: char, b: char)
    ensures Cost(a, b) ==
            if a == b || ('A' <= a <= 'Z' && b as int == a as int + 32) || ('A' <= b <= 'Z' && a as int == b as int + 32)
            then 0 else 1
  {
  }

  // ---- The recursive distance ---------------------------------------------------

  /** Levenshtein's recurrence on the last characters. */
  function Dist(a: string, b: string): nat
    decreases |a| + |b|
  {
    if a == [] then |b|
    else if b == [] then |a|
    else
      var a', b' := a[..|a| - 1], b[..|b| - 1];
      Min3(Dist(a, b') + 1, Dist(a', b) + 1, Dist(a', b') + Cost(a[|a| - 1], b[|b| - 1]))
  }

  /** The entry of the table for the first `i` characters of `a` and the first `j` of `b`. */
  function Entry(a: string, b: string, i: nat, j: nat): nat
    requires i <= |a| && j <= |b|
  {
    if i == 0 then j
    else if j == 0 then i
    else Min3(Entry(a, b, i, j - 1) + 1, Entry(a, b, i - 1, j) + 1, Entry(a, b, i - 1, j - 1) + Cost(a[i - 1], b[j - 1]))
  }

  lemma {:induction false} EntryIsDistOfPrefixes(a: string, b: string, i: nat, j: nat)
    requires i <= |a| && j <= |b|
    ensures Entry(a, b, i, j) == Dist(a[..i], b[..j])
    decreases i + j
  {
    hide Cost, Min3;
    if i > 0 && j > 0 {
      EntryIsDistOfPrefixes(a, b, i, j - 1);
      EntryIsDistOfPrefixes(a, b, i - 1, j);
      EntryIsDistOfPrefixes(a, b, i - 1, j - 1);
      assert a[..i][..i - 1] == a[..i - 1] && b[..j][..j - 1] == b[..j - 1];
    }
  }

  // ---- It is a metric -------------------------------------------------------------

  lemma {:induction false} DistBounds(a: string, b: string)
    ensures |a| - |b| <= Dist(a, b) && |b| - |a| <= Dist(a, b)
    decreases |a| + |b|
  {
    if a != [] && b != [] {
      DistBounds(a, b[..|b| - 1]);
      DistBounds(a[..|a| - 1], b);
      DistBounds(a[..|a| - 1], b[..|b| - 1]);
    }
  }

  lemma {:induction false} DistIsZero(a: string, b: string)
    ensures Dist(a, b) == 0 <==> LowerAll(a) == LowerAll(b)
    decreases |a| + |b|
  {
    if a != [] && b != [] {
      var a', b' := a[..|a| - 1], b[..|b| - 1];
      DistIsZero(a', b');
      if LowerAll(a) == LowerAll(b) {
        assert LowerAll(a') == LowerAll(a)[..|a'|] && LowerAll(b') == LowerAll(b)[..|b'|];
      }
    }
  }

  lemma {:induction false} DistIsSymmetric(a: string, b: string)
    ensures Dist(a, b) == Dist(b, a)
    decreases |a| + |b|
  {
    if a != [] && b != [] {
      DistIsSymmetric(a, b[..|b| - 1]);
      DistIsSymmetric(a[..|a| - 1], b);
      DistIsSymmetric(a[..|a| - 1], b[..|b| - 1]);
    }
  }

  lemma {:induction false} TriangleInequality(a: string, b: string, c: string)
    ensures Dist(a, c) <= Dist(a, b) + Dist(b, c)
    decreases |a| + |b| + |c|
  {
    if a == [] {
      DistBounds(b, c);
    } else if b == [] {
      DistBounds(a, c);
      DistTotal(a, c);
    } else if c == [] {
      DistBounds(a, b);
    } else {
      var a', b', c' := a[..|a| - 1], b[..|b| - 1], c[..|c| - 1];
      TriangleInequality(a', b, c);
      TriangleInequality(a, b, c');
      TriangleInequality(a, b', c);
      TriangleInequality(a, b', c');
      TriangleInequality(a', b', c);
      TriangleInequality(a', b', c');
    }
  }

  lemma {:induction false} DistTotal(a: string, b: string)
    ensures Dist(a, b) <= |a| + |b|
    decreases |a| + |b|
  {
    if a != [] && b != [] {
      DistTotal(a[..|a| - 1], b);
    }
  }

  // ---- It counts edits --------------------------------------------------------------

  datatype Edit = Insert(at: nat, c: char) | Delete(at: nat) | Replace(at: nat, c: char)

  predicate Possible(e: Edit, s: string) {
    match e
    case Insert(at, _) => at <= |s|
    case Delete(at) => at < |s|
    case Replace(at, _) => at < |s|
  }

  function Edited(e: Edit, s: string): string
    requires Possible(e, s)
  {
    match e
    case Insert(at, c) => s[..at] + [c] + s[at..]
    case Delete(at) => s[..at] + s[at + 1..]
    case Replace(at, c) => s[at := c]
  }

  /** `edits`, made one after the other, turn `a` into `b` up to case. */
  predicate Turns(a: string, edits: seq<Edit>, b: string)
    decreases |edits|
  {
    if edits == [] then LowerAll(a) == LowerAll(b)
    else Possible(edits[0], a) && Turns(Edited(edits[0], a), edits[1..], b)
  }

  lemma {:induction false} DistOfSelf(a: string)
    ensures Dist(a, a) == 0
  {
    DistIsZero(a, a);
  }

  /** Adding the same character at the end of both strings adds nothing to the distance. */
  lemma DistOfSameEnd(a: string, b: string, c: char)
    ensures Dist(a + [c], b + [c]) <= Dist(a, b)
  {
    assert (a + [c])[..|a|] == a && (b + [c])[..|b|] == b;
  }

  lemma {:induction false} DistOfSameTail(a: string, b: string, tail: string)
    ensures Dist(a + tail, b + tail) <= Dist(a, b)
    decreases |tail|
  {
    if tail == [] {
      assert a + tail == a && b + tail == b;
    } else {
      var front, last := tail[..|tail| - 1], tail[|tail| - 1];
      assert a + tail == a + front + [last] && b + tail == b + front + [last];
      DistOfSameTail(a, b, front);
      DistOfSameEnd(a + front, b + front, last);
    }
  }

  lemma ChangedEndIsNear(head: string, x: char, y: char)
    ensures Dist(head, head + [y]) <= 1 && Dist(head + [x], head) <= 1 && Dist(head + [x], head + [y]) <= 1
  {
    DistOfSelf(head);
    assert (head + [x])[..|head|] == head && (head + [y])[..|head|] == head;
  }

  lemma ChangedMiddleIsNear(head: string, x: char, y: char, tail: string)
    ensures Dist(head + tail, head + [y] + tail) <= 1
    ensures Dist(head + [x] + tail, head + tail) <= 1
    ensures Dist(head + [x] + tail, head + [y] + tail) <= 1
  {
    ChangedEndIsNear(head, x, y);
    DistOfSameTail(head, head + [y], tail);
    DistOfSameTail(head + [x], head, tail);
    DistOfSameTail(head + [x], head + [y], tail);
  }

  lemma OneEditIsNear(a: string, e: Edit)
    requires Possible(e, a)
    ensures Dist(a, Edited(e, a)) <= 1
  {
    hide Dist;
    var head, tail := a[..e.at], a[e.at..];
    assert a == head + tail;
    if e.Insert? {
      ChangedMiddleIsNear(head, e.c, e.c, tail);
    } else {
      var y := if e.Replace? then e.c else 'y';
      ChangedMiddleIsNear(head, tail[0], y, tail[1..]);
      assert a == head + [tail[0]] + tail[1..];
      EditAroundOne(head, tail[0], tail[1..], e);
    }
  }

  lemma EditAroundOne(head: string, x: char, tail: string, e: Edit)
    requires !e.Insert? && e.at == |head|
    ensures var a := head + [x] + tail;
            Possible(e, a) && Edited(e, a) == if e.Delete? then head + tail else head + [e.c] + tail
  {
    var a := head + [x] + tail;
    assert a[..|head|] == head && a[|head| + 1..] == tail;
  }

  /** No script is shorter than the distance. */
  lemma {:induction false} ScriptsAreLong(a: string, edits: seq<Edit>, b: string)
    requires Turns(a, edits, b)
    ensures Dist(a, b) <= |edits|
    decreases |edits|
  {
    if edits == [] {
      DistIsZero(a, b);
    } else {
      var next := Edited(edits[0], a);
      OneEditIsNear(a, edits[0]);
      ScriptsAreLong(next, edits[1..], b);
      TriangleInequality(a, next, b);
    }
  }

  /** A script keeps working under a common tail. */
  lemma {:induction false} TurnsUnderTail(a: string, edits: seq<Edit>, b: string, x: char, y: char)
    requires Turns(a, edits, b) && Lower(x) == Lower(y)
    ensures Turns(a + [x], edits, b + [y])
    decreases |edits|
  {
    if edits != [] {
      var e := edits[0];
      assert Edited(e, a + [x]) == Edited(e, a) + [x];
      TurnsUnderTail(Edited(e, a), edits[1..], b, x, y);
    }
  }

  lemma TurnsInOneMore(a: string, e: Edit, edits: seq<Edit>, b: string)
    requires Possible(e, a) && Turns(Edited(e, a), edits, b)
    ensures Turns(a, [e] + edits, b)
  {
    assert ([e] + edits)[1..] == edits;
  }

  lemma InsertAtEnd(a: string, edits: seq<Edit>, front: string, c: char)
    requires Turns(a, edits, front)
    ensures Turns(a, [Insert(|a|, c)] + edits, front + [c])
  {
    hide Turns;
    TurnsUnderTail(a, edits, front, c, c);
    assert Edited(Insert(|a|, c), a) == a + [c];
    TurnsInOneMore(a, Insert(|a|, c), edits, front + [c]);
  }

  lemma DeleteAtEnd(front: string, x: char, edits: seq<Edit>, b: string)
    requires Turns(front, edits, b)
    ensures Turns(front + [x], [Delete(|front|)] + edits, b)
  {
    assert Edited(Delete(|front|), front + [x]) == front;
    TurnsInOneMore(front + [x], Delete(|front|), edits, b);
  }

  lemma ReplaceAtEnd(front: string, x: char, edits: seq<Edit>, back: string, y: char)
    requires Turns(front, edits, back)
    ensures Turns(front + [x], [Replace(|front|, y)] + edits, back + [y])
  {
    TurnsUnderTail(front, edits, back, y, y);
    assert Edited(Replace(|front|, y), front + [x]) == front + [y];
    TurnsInOneMore(front + [x], Replace(|front|, y), edits, back + [y]);
  }

  /** Some script is as short as the distance. */
  lemma {:induction false} ShortestScript(a: string, b: string) returns (edits: seq<Edit>)
    ensures Turns(a, edits, b) && |edits| == Dist(a, b)
    decreases |a| + |b|
  {
    if a == [] && b == [] {
      return [];
    } else if a == [] {
      edits := ScriptInserting(a, b);
    } else if b == [] {
      edits := ScriptDeleting(a, b);
    } else if Dist(a, b) == Dist(a, b[..|b| - 1]) + 1 {
      edits := ScriptInserting(a, b);
    } else if Dist(a, b) == Dist(a[..|a| - 1], b) + 1 {
      edits := ScriptDeleting(a, b);
    } else {
      edits := ScriptReplacing(a, b);
    }
  }

  lemma {:induction false} ScriptInserting(a: string, b: string) returns (edits: seq<Edit>)
    requires b != [] && Dist(a, b) == Dist(a, b[..|b| - 1]) + 1
    ensures Turns(a, edits, b) && |edits| == Dist(a, b)
    decreases |a| + |b|, 0
  {
    hide Turns, Dist;
    var front, c := b[..|b| - 1], b[|b| - 1];
    edits := ShortestScript(a, front);
    InsertAtEnd(a, edits, front, c);
    edits := [Insert(|a|, c)] + edits;
    assert b == front + [c];
  }

  lemma {:induction false} ScriptDeleting(a: string, b: string) returns (edits: seq<Edit>)
    requires a != [] && Dist(a, b) == Dist(a[..|a| - 1], b) + 1
    ensures Turns(a, edits, b) && |edits| == Dist(a, b)
    decreases |a| + |b|, 0
  {
    hide Turns, Dist;
    var front, x := a[..|a| - 1], a[|a| - 1];
    edits := ShortestScript(front, b);
    DeleteAtEnd(front, x, edits, b);
    edits := [Delete(|front|)] + edits;
    assert a == front + [x];
  }

  lemma {:induction false} ScriptReplacing(a: string, b: string) returns (edits: seq<Edit>)
    requires a != [] && b != []
    requires Dist(a, b) == Dist(a[..|a| - 1], b[..|b| - 1]) + Cost(a[|a| - 1], b[|b| - 1])
    ensures Turns(a, edits, b) && |edits| == Dist(a, b)
    decreases |a| + |b|, 0
  {
    hide Turns, Dist;
    var front, x, back, y := a[..|a| - 1], a[|a| - 1], b[..|b| - 1], b[|b| - 1];
    edits := ShortestScript(front, back);
    if Lower(x) == Lower(y) {
      TurnsUnderTail(front, edits, back, x, y);
    } else {
      ReplaceAtEnd(front, x, edits, back, y);
      edits := [Replace(|front|, y)] + edits;
    }
    assert a == front + [x] && b == back + [y];
  }

  /** The distance is the least number of insertions, deletions and replacements. */
  lemma DistIsFewestEdits(a: string, b: string)
    ensures exists edits :: Turns(a, edits, b) && |edits| == Dist(a, b)
    ensures forall edits | Turns(a, edits, b) :: Dist(a, b) <= |edits|
  {
    var _ := ShortestScript(a, b);
    forall edits | Turns(a, edits, b)
      ensures Dist(a, b) <= |edits|
    {
      ScriptsAreLong(a, edits, b);
    }
  }

  // ---- The code ---------------------------------------------------------------------

  /** One row of the table from the row before it. */
  method FillRow(left: string, right: string, row: nat, previous: array<nat>, current: array<nat>)
    requires 1 <= row <= |left| && previous.Length == current.Length == |right| + 1 && previous != current
    requires forall j | 0 <= j <= |right| :: previous[j] == Entry(left, right, row - 1, j)
    modifies current
    ensures forall j | 0 <= j <= |right| :: current[j] == Entry(left, right, row, j)
  {
    hide Min3, Lower;
    current[0] := row;
    var column := 1;
    while column <= |right|
      invariant 1 <= column <= |right| + 1
      invariant forall j | 0 <= j < column :: current[j] == Entry(left, right, row, j)
    {
      var substitution := previous[column - 1] + (if Lower(left[row - 1]) == Lower(right[column - 1]) then 0 else 1);
      var least := Min3(current[column - 1] + 1, previous[column] + 1, substitution);
      assert least == Entry(left, right, row, column);
      current[column] := least;
      column := column + 1;
    }
  }

  /** The distance by two rows of the table, swapped after every character of `left`. */
  method Distance(left: string, right: string) returns (distance: nat)
    ensures distance == Dist(left, right)
  {
    hide Dist;
    var previous := new nat[|right| + 1];
    var current := new nat[|right| + 1];
    for index := 0 to |right| + 1
      invariant forall j | 0 <= j < index :: previous[j] == j
    {
      previous[index] := index;
    }
    var row := 1;
    while row <= |left|
      invariant 1 <= row <= |left| + 1
      invariant previous.Length == current.Length == |right| + 1 && previous != current
      invariant fresh(previous) && fresh(current)
      invariant forall j | 0 <= j <= |right| :: previous[j] == Entry(left, right, row - 1, j)
    {
      FillRow(left, right, row, previous, current);
      previous, current := current, previous;
      row := row + 1;
    }
    EntryIsDistOfPrefixes(left, right, |left|, |right|);
    assert left[..|left|] == left && right[..|right|] == right;
    return previous[|right|];
  }

  // ---- Suggestions --------------------------------------------------------------------

  type Scored = (nat, string)

  /** Byte order of names, which breaks ties between equal scores. */
  predicate Alphabetical(a: string, b: string) {
    if a == [] then true
    else if b == [] then false
    else a[0] < b[0] || (a[0] == b[0] && Alphabetical(a[1..], b[1..]))
  }

  /** The order of a dictionary: where two names first differ, or the shorter one first. */
  lemma {:induction false} FirstDifferenceDecides(a: string, b: string)
    ensures Alphabetical(a, b) <==>
            a <= b || exists k | 0 <= k < |a| && k < |b| :: a[..k] == b[..k] && a[k] < b[k]
  {
    if a != [] && b != [] && a[0] == b[0] {
      FirstDifferenceDecides(a[1..], b[1..]);
      if a[1..] <= b[1..] {
        assert a == [a[0]] + a[1..] && b == [b[0]] + b[1..];
      }
      if k :| 0 <= k < |a| && k < |b| && a[..k] == b[..k] && a[k] < b[k] {
        assert k > 0 && a[1..][..k - 1] == a[..k][1..] && b[1..][..k - 1] == b[..k][1..];
        assert a[1..][k - 1] == a[k] && b[1..][k - 1] == b[k];
      }
      if k :| 0 <= k < |a[1..]| && k < |b[1..]| && a[1..][..k] == b[1..][..k] && a[1..][k] < b[1..][k] {
        assert a[..k + 1] == [a[0]] + a[1..][..k] && b[..k + 1] == [b[0]] + b[1..][..k];
        assert a[k + 1] < b[k + 1];
      }
    } else if a != [] && b != [] && a[0] < b[0] {
      assert a[..0] == b[..0];
    }
  }

  predicate Ordered(x: Scored, y: Scored) {
    x.0 < y.0 || (x.0 == y.0 && Alphabetical(x.1, y.1))
  }

  lemma {:induction false} AlphabeticalIsTotal(a: string, b: string)
    ensures Alphabetical(a, b) || Alphabetical(b, a)
  {
    if a != [] && b != [] {
      AlphabeticalIsTotal(a[1..], b[1..]);
    }
  }

  lemma {:induction false} AlphabeticalIsTransitive(a: string, b: string, c: string)
    requires Alphabetical(a, b) && Alphabetical(b, c)
    ensures Alphabetical(a, c)
  {
    if a != [] && a[0] == b[0] && b[0] == c[0] {
      AlphabeticalIsTransitive(a[1..], b[1..], c[1..]);
    }
  }

  predicate Sorted(s: seq<Scored>) {
    forall i, j | 0 <= i < j < |s| :: Ordered(s[i], s[j])
  }

  /** The registered names close enough to offer, each with its distance. */
  function Near(name: string, registered: seq<string>): seq<Scored> {
    if registered == [] then [] else
      var last := registered[|registered| - 1];
      Near(name, registered[..|registered| - 1]) +
      (if Dist(name, last) <= SUGGESTION_LIMIT then [(Dist(name, last), last)] else [])
  }

  lemma OrderedIsTransitive(x: Scored, y: Scored, z: Scored)
    requires Ordered(x, y) && Ordered(y, z)
    ensures Ordered(x, z)
  {
    hide Alphabetical;
    if x.0 == y.0 == z.0 {
      AlphabeticalIsTransitive(x.1, y.1, z.1);
    }
  }

  lemma OrderedIsTotal(x: Scored, y: Scored)
    ensures Ordered(x, y) || Ordered(y, x)
  {
    hide Alphabetical;
    AlphabeticalIsTotal(x.1, y.1);
  }

  lemma InsertedStaysSorted(s: seq<Scored>, x: Scored, at: nat)
    requires Sorted(s) && at <= |s| && (at > 0 ==> Ordered(s[at - 1], x))
    requires forall k | at <= k < |s| :: Ordered(x, s[k])
    ensures Sorted(s[..at] + [x] + s[at..])
  {
    hide Ordered;
    forall k | 0 <= k < at
      ensures Ordered(s[k], x)
    {
      if k < at - 1 {
        OrderedIsTransitive(s[k], s[at - 1], x);
      }
    }
  }

  /** One element into its place in an ordered list. */
  method InsertScored(s: seq<Scored>, x: Scored) returns (r: seq<Scored>)
    requires Sorted(s)
    ensures Sorted(r) && multiset(r) == multiset(s) + multiset{x}
  {
    hide Ordered, Sorted;
    var at := |s|;
    while at > 0 && !Ordered(s[at - 1], x)
      invariant 0 <= at <= |s|
      invariant forall k | at <= k < |s| :: Ordered(x, s[k])
    {
      OrderedIsTotal(s[at - 1], x);
      at := at - 1;
    }
    InsertedStaysSorted(s, x, at);
    r := s[..at] + [x] + s[at..];
    assert s == s[..at] + s[at..];
  }

  method SortScored(s: seq<Scored>) returns (r: seq<Scored>)
    ensures Sorted(r) && multiset(r) == multiset(s)
  {
    r := [];
    for i := 0 to |s|
      invariant Sorted(r) && multiset(r) == multiset(s[..i])
    {
      r := InsertScored(r, s[i]);
      assert s[..i + 1] == s[..i] + [s[i]];
    }
    assert s[..|s|] == s;
  }

  function Score(name: string, names: seq<string>): (s: seq<Scored>)
    ensures |s| == |names| && forall k | 0 <= k < |s| :: s[k] == (Dist(name, names[k]), names[k])
  {
    if names == [] then [] else
      Score(name, names[..|names| - 1]) + [(Dist(name, names[|names| - 1]), names[|names| - 1])]
  }

  /** Exactly the registered names within the limit, nearest first and then in byte order. Different names never tie in
      that order, so it leaves no choice (`SortedIsUnique`). */
  method NearestNames(name: string, registered: seq<string>) returns (names: seq<string>)
    ensures multiset(Score(name, names)) == multiset(Near(name, registered))
    ensures Sorted(Score(name, names))
  {
    hide Dist;
    var found: seq<Scored> := [];
    for i := 0 to |registered|
      invariant found == Near(name, registered[..i])
    {
      assert registered[..i + 1][..i] == registered[..i];
      var score := Distance(name, registered[i]);
      if score <= SUGGESTION_LIMIT {
        found := found + [(score, registered[i])];
      }
    }
    assert registered[..|registered|] == registered;
    var sorted := SortScored(found);
    ScoresAreDistances(name, registered, sorted);
    names := [];
    for i := 0 to |sorted|
      invariant Score(name, names) == sorted[..i]
    {
      ScoreOfOneMore(name, names, sorted[i].1);
      names := names + [sorted[i].1];
      assert sorted[..i + 1] == sorted[..i] + [sorted[i]];
    }
    assert sorted[..|sorted|] == sorted;
  }

  lemma ScoreOfOneMore(name: string, names: seq<string>, last: string)
    ensures Score(name, names + [last]) == Score(name, names) + [(Dist(name, last), last)]
  {
    assert (names + [last])[..|names|] == names;
  }

  lemma ScoresAreDistances(name: string, registered: seq<string>, s: seq<Scored>)
    requires multiset(s) == multiset(Near(name, registered))
    ensures forall k | 0 <= k < |s| :: s[k] == (Dist(name, s[k].1), s[k].1)
  {
    forall k | 0 <= k < |s|
      ensures s[k] == (Dist(name, s[k].1), s[k].1)
    {
      assert s[k] in multiset(Near(name, registered));
      NearIsWithinLimit(name, registered, s[k]);
    }
  }

  lemma {:induction false} AlphabeticalIsAntisymmetric(a: string, b: string)
    requires Alphabetical(a, b) && Alphabetical(b, a)
    ensures a == b
  {
    if a != [] && b != [] {
      AlphabeticalIsAntisymmetric(a[1..], b[1..]);
      assert a == [a[0]] + a[1..] && b == [b[0]] + b[1..];
    }
  }

  lemma {:induction false} SortedIsUnique(s: seq<Scored>, t: seq<Scored>)
    requires Sorted(s) && Sorted(t) && multiset(s) == multiset(t)
    ensures s == t
    decreases |s|
  {
    if s == [] {
      assert |multiset(t)| == 0;
    } else {
      assert |multiset(s)| == |s| && |multiset(t)| == |t|;
      assert s[0] in multiset(t) && t[0] in multiset(s);
      if s[0] != t[0] {
        AlphabeticalIsAntisymmetric(s[0].1, t[0].1);
        assert false;
      }
      assert s == [s[0]] + s[1..] && t == [t[0]] + t[1..];
      assert multiset(s[1..]) == multiset(s) - multiset{s[0]};
      SortedIsUnique(s[1..], t[1..]);
    }
  }

  /** A name is offered exactly when it is registered and within the limit. */
  lemma {:induction false} NearIsWithinLimit(name: string, registered: seq<string>, x: Scored)
    ensures x in Near(name, registered) <==>
            x.1 in registered && x.0 == Dist(name, x.1) && x.0 <= 4
  {
    if registered != [] {
      var front, last := registered[..|registered| - 1], registered[|registered| - 1];
      NearIsWithinLimit(name, front, x);
      assert registered == front + [last];
    }
  }
}
