/** Match positions as the replace step sees them: a (line number, match
    start) pair per selected result, the sort by that pair, and the match
    starts that fall on one line. */
module Positions {

  /** The (line_number, match_start) sort key of a search result. */
  datatype Pos = Pos(line: int, start: int)

  /** Lexicographic order on positions, as Python compares key tuples. */
  predicate LexLe(a: Pos, b: Pos) {
    a.line < b.line || (a.line == b.line && a.start <= b.start)
  }

  predicate SortedPos(ps: seq<Pos>) {
    forall i, j :: 0 <= i < j < |ps| ==> LexLe(ps[i], ps[j])
  }

  /** Inserts `x` into sorted `ps` after every position not greater than it. */
  function Insert(x: Pos, ps: seq<Pos>): (r: seq<Pos>)
    requires SortedPos(ps)
    ensures SortedPos(r)
    ensures multiset(r) == multiset(ps) + multiset{x}
    decreases |ps|
  {
    if ps == [] || LexLe(x, ps[0]) then
      InsertFront(x, ps);
      [x] + ps
    else
      var rest := Insert(x, ps[1..]);
      InsertBehind(x, ps, rest);
      [ps[0]] + rest
  }

  lemma InsertFront(x: Pos, ps: seq<Pos>)
    requires SortedPos(ps) && (ps == [] || LexLe(x, ps[0]))
    ensures SortedPos([x] + ps)
  {
    forall i, j | 0 <= i < j < |[x] + ps| ensures LexLe(([x] + ps)[i], ([x] + ps)[j]) {
      if i > 0 {
        assert ([x] + ps)[i] == ps[i - 1] && ([x] + ps)[j] == ps[j - 1];
      } else {
        assert ([x] + ps)[j] == ps[j - 1];
        assert LexLe(ps[0], ps[j - 1]) || j == 1;
      }
    }
  }

  /** A member of a sorted list's tail is not below its head. */
  lemma HeadBelowTail(ps: seq<Pos>, y: Pos)
    requires SortedPos(ps) && ps != [] && y in multiset(ps[1..])
    ensures LexLe(ps[0], y)
  {
    assert y in ps[1..];
    var k :| 0 <= k < |ps[1..]| && ps[1..][k] == y;
    assert ps[k + 1] == y;
  }

  lemma InsertBehind(x: Pos, ps: seq<Pos>, rest: seq<Pos>)
    requires SortedPos(ps) && ps != [] && !LexLe(x, ps[0])
    requires SortedPos(rest) && multiset(rest) == multiset(ps[1..]) + multiset{x}
    ensures SortedPos([ps[0]] + rest)
    ensures multiset([ps[0]] + rest) == multiset(ps) + multiset{x}
  {
    var r := [ps[0]] + rest;
    forall k | 0 <= k < |rest| ensures LexLe(ps[0], rest[k]) {
      assert rest[k] in multiset(rest);
      if rest[k] != x {
        HeadBelowTail(ps, rest[k]);
      }
    }
    forall i, j | 0 <= i < j < |r| ensures LexLe(r[i], r[j]) {
      assert r[j] == rest[j - 1];
      if i > 0 {
        assert r[i] == rest[i - 1];
      }
    }
    assert ps == [ps[0]] + ps[1..];
  }

  /** `sorted(..., key=lambda r: (r.line_number, r.match_start))` on the keys:
      a sorted permutation of `ps`. */
  function SortPos(ps: seq<Pos>): (r: seq<Pos>)
    ensures SortedPos(r)
    ensures multiset(r) == multiset(ps)
  {
    if ps == [] then []
    else
      assert ps == [ps[0]] + ps[1..];
      Insert(ps[0], SortPos(ps[1..]))
  }

  /** The match starts of the positions on line `ln`, in the order given. */
  function StartsOn(ps: seq<Pos>, ln: int): seq<int> {
    if ps == [] then []
    else (if ps[0].line == ln then [ps[0].start] else []) + StartsOn(ps[1..], ln)
  }

  predicate Ascending(ss: seq<int>) {
    forall i, j :: 0 <= i < j < |ss| ==> ss[i] <= ss[j]
  }

  lemma {:induction false} StartsOnConcat(a: seq<Pos>, b: seq<Pos>, ln: int)
    ensures StartsOn(a + b, ln) == StartsOn(a, ln) + StartsOn(b, ln)
    decreases |a|
  {
    if a != [] {
      var head := if a[0].line == ln then [a[0].start] else [];
      assert (a + b)[0] == a[0];
      assert (a + b)[1..] == a[1..] + b;
      StartsOnConcat(a[1..], b, ln);
      calc {
        StartsOn(a + b, ln);
        head + StartsOn(a[1..] + b, ln);
        head + (StartsOn(a[1..], ln) + StartsOn(b, ln));
        (head + StartsOn(a[1..], ln)) + StartsOn(b, ln);
        StartsOn(a, ln) + StartsOn(b, ln);
      }
    } else {
      assert a + b == b;
    }
  }

  /** Every start listed for line `ln` comes from a position on that line. */
  lemma {:induction false} StartsOnMember(ps: seq<Pos>, ln: int, s: int)
    requires s in StartsOn(ps, ln)
    ensures Pos(ln, s) in ps
    decreases |ps|
  {
    if ps[0].line != ln || s != ps[0].start {
      StartsOnMember(ps[1..], ln, s);
    }
  }

  /** The starts of a line, with the last position set apart. */
  lemma StartsOnSnoc(ks: seq<Pos>, ln: int)
    requires ks != []
    ensures StartsOn(ks, ln) == StartsOn(ks[..|ks| - 1], ln)
              + (if ks[|ks| - 1].line == ln then [ks[|ks| - 1].start] else [])
  {
    var last, init := ks[|ks| - 1], ks[..|ks| - 1];
    assert ks == init + [last];
    StartsOnConcat(init, [last], ln);
    assert [last][1..] == [];
  }

  /** Line `ln` has no listed start when no position is on it. */
  lemma {:induction false} StartsOnNone(ps: seq<Pos>, ln: int)
    requires forall k :: 0 <= k < |ps| ==> ps[k].line != ln
    ensures StartsOn(ps, ln) == []
    decreases |ps|
  {
    if ps != [] {
      StartsOnNone(ps[1..], ln);
    }
  }

  /** Reordering the positions reorders, but keeps, the starts of each line. */
  lemma {:induction false} StartsOnPermutation(a: seq<Pos>, b: seq<Pos>, ln: int)
    requires multiset(a) == multiset(b)
    ensures multiset(StartsOn(a, ln)) == multiset(StartsOn(b, ln))
    decreases |a|
  {
    if a == [] {
      assert |b| == |multiset(b)| == 0;
    } else {
      var x := a[0];
      var j := RemoveOne(a, b);
      var b' := b[..j] + b[j + 1..];
      StartsOnPermutation(a[1..], b', ln);
      StartsOnSplit(b, j, ln);
      assert a == [x] + a[1..];
      StartsOnConcat([x], a[1..], ln);
    }
  }

  /** The first element of `a` sits at some index `j` of its permutation `b`,
      and the rest of `a` is a permutation of `b` without that index. */
  lemma RemoveOne<T>(a: seq<T>, b: seq<T>) returns (j: int)
    requires a != [] && multiset(a) == multiset(b)
    ensures 0 <= j < |b| && b[j] == a[0]
    ensures multiset(a[1..]) == multiset(b[..j] + b[j + 1..])
  {
    var x := a[0];
    assert x in multiset(b);
    j :| 0 <= j < |b| && b[j] == x;
    var pre, post := b[..j], b[j + 1..];
    assert b == pre + [x] + post;
    assert a == [x] + a[1..];
    assert multiset(b) == multiset{x} + multiset(pre + post);
    Cancel(x, multiset(a[1..]), multiset(pre + post));
  }

  /** Taking the same element from two equal multisets leaves equal ones. */
  lemma Cancel<T>(x: T, m1: multiset<T>, m2: multiset<T>)
    requires multiset{x} + m1 == multiset{x} + m2
    ensures m1 == m2
  {
    assert m1 == (multiset{x} + m1) - multiset{x};
    assert m2 == (multiset{x} + m2) - multiset{x};
  }

  /** The starts of `b` on a line, with the position at index `j` set apart. */
  lemma StartsOnSplit(b: seq<Pos>, j: int, ln: int)
    requires 0 <= j < |b|
    ensures multiset(StartsOn(b, ln))
            == multiset(StartsOn([b[j]], ln)) + multiset(StartsOn(b[..j] + b[j + 1..], ln))
  {
    assert b == b[..j] + [b[j]] + b[j + 1..];
    StartsOnConcat(b[..j] + [b[j]], b[j + 1..], ln);
    StartsOnConcat(b[..j], [b[j]], ln);
    StartsOnConcat(b[..j], b[j + 1..], ln);
  }

  /** In a sorted position list the starts of one line are ascending. */
  lemma {:induction false} StartsOnSorted(ps: seq<Pos>, ln: int)
    requires SortedPos(ps)
    ensures Ascending(StartsOn(ps, ln))
    decreases |ps|
  {
    if ps != [] {
      StartsOnSorted(ps[1..], ln);
      var rest := StartsOn(ps[1..], ln);
      if ps[0].line == ln {
        forall k | 0 <= k < |rest| ensures ps[0].start <= rest[k] {
          StartsOnMember(ps[1..], ln, rest[k]);
          var i :| 0 <= i < |ps[1..]| && ps[1..][i] == Pos(ln, rest[k]);
          assert LexLe(ps[0], ps[i + 1]);
        }
      }
    }
  }

  /** An ascending list is determined by its multiset of elements. */
  lemma {:induction false} AscendingUnique(a: seq<int>, b: seq<int>)
    requires Ascending(a) && Ascending(b)
    requires multiset(a) == multiset(b)
    ensures a == b
    decreases |a|
  {
    if a == [] {
      assert |b| == |multiset(b)| == 0;
    } else {
      assert |b| == |multiset(b)| == |multiset(a)| == |a|;
      AscendingHeads(a, b);
      assert a == [a[0]] + a[1..] && b == [b[0]] + b[1..];
      assert multiset(a[1..]) == multiset(a) - multiset{a[0]};
      assert multiset(b[1..]) == multiset(b) - multiset{b[0]};
      AscendingUnique(a[1..], b[1..]);
    }
  }

  /** Two ascending permutations of each other start with the same element. */
  lemma AscendingHeads(a: seq<int>, b: seq<int>)
    requires Ascending(a) && Ascending(b) && a != [] && b != []
    requires multiset(a) == multiset(b)
    ensures a[0] == b[0]
  {
    assert a[0] in multiset(b) && b[0] in multiset(a);
    var i :| 0 <= i < |b| && b[i] == a[0];
    var j :| 0 <= j < |a| && a[j] == b[0];
    assert b[0] <= b[i] && a[0] <= a[j];
  }

  /** The starts of line `ln` in a sorted permutation of `ps` are the starts
      of `ps` on that line, in ascending order. */
  lemma SortedStartsOn(ps: seq<Pos>, ln: int, ss: seq<int>)
    requires Ascending(ss) && multiset(ss) == multiset(StartsOn(ps, ln))
    ensures StartsOn(SortPos(ps), ln) == ss
  {
    StartsOnPermutation(ps, SortPos(ps), ln);
    StartsOnSorted(SortPos(ps), ln);
    AscendingUnique(StartsOn(SortPos(ps), ln), ss);
  }
}
