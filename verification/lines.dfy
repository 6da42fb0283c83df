/** `text.split('\n')` and `'\n'.join(lines)`: the line structure both the
    search and the replace work on. */
module Lines {

  /** Number of newline characters in `t`. */
  function NewlineCount(t: string): nat {
    if t == [] then 0 else (if t[0] == '\n' then 1 else 0) + NewlineCount(t[1..])
  }

  /** `t.split('\n')`: one line per newline plus one, none of them holding a
      newline. The empty text is one empty line. */
  function Split(t: string): (ls: seq<string>)
    ensures |ls| == NewlineCount(t) + 1
    ensures forall i :: 0 <= i < |ls| ==> '\n' !in ls[i]
  {
    if t == [] then [[]]
    else if t[0] == '\n' then [[]] + Split(t[1..])
    else PrependChar(t[0], Split(t[1..]))
  }

  /** `ls` with `c` put in front of its first line: the joined text gains
      `c` in front, and a character other than a newline adds no newline to
      any line. */
  function PrependChar(c: char, ls: seq<string>): (r: seq<string>)
    requires ls != []
    ensures |r| == |ls|
    ensures Join(r) == [c] + Join(ls)
    ensures c != '\n' && NoNewlines(ls) ==> NoNewlines(r)
  {
    var r := [[c] + ls[0]] + ls[1..];
    if |ls| > 1 then
      JoinCons([c] + ls[0], ls[1..]);
      JoinCons(ls[0], ls[1..]);
      assert [ls[0]] + ls[1..] == ls;
      r
    else
      r
  }

  /** `'\n'.join(ls)`. */
  function Join(ls: seq<string>): string {
    if ls == [] then []
    else if |ls| == 1 then ls[0]
    else ls[0] + "\n" + Join(ls[1..])
  }

  /** No line of `ls` contains a newline. */
  predicate NoNewlines(ls: seq<string>) {
    forall i :: 0 <= i < |ls| ==> '\n' !in ls[i]
  }

  lemma JoinCons(l: string, ls: seq<string>)
    requires ls != []
    ensures Join([l] + ls) == l + "\n" + Join(ls)
  {
    assert ([l] + ls)[1..] == ls;
  }

  /** Joining the lines of a text gives the text back. */
  lemma {:induction false} JoinSplit(t: string)
    ensures Join(Split(t)) == t
    decreases |t|
  {
    if t != [] {
      var rest := Split(t[1..]);
      JoinSplit(t[1..]);
      if t[0] == '\n' {
        JoinCons([], rest);
      }
      assert [t[0]] + t[1..] == t;
    }
  }

  /** A newline-free string is one line. */
  lemma {:induction false} SplitSingle(a: string)
    requires '\n' !in a
    ensures Split(a) == [a]
    decreases |a|
  {
    if a != [] {
      assert '\n' !in a[1..];
      SplitSingle(a[1..]);
      assert [a[0]] + a[1..] == a;
    }
  }

  /** A newline-free prefix followed by a newline is exactly the first line. */
  lemma {:induction false} SplitAfterLine(a: string, b: string)
    requires '\n' !in a
    ensures Split(a + "\n" + b) == [a] + Split(b)
    decreases |a|
  {
    if a == [] {
      assert a + "\n" + b == "\n" + b;
      assert ("\n" + b)[1..] == b;
    } else {
      assert '\n' !in a[1..];
      SplitAfterLine(a[1..], b);
      assert (a + "\n" + b)[1..] == a[1..] + "\n" + b;
      assert [a[0]] + a[1..] == a;
    }
  }

  /** Splitting joined newline-free lines gives the lines back: `Split` and
      `Join` are inverse on the texts and line lists they produce. */
  lemma {:induction false} SplitJoin(ls: seq<string>)
    requires ls != []
    requires NoNewlines(ls)
    ensures Split(Join(ls)) == ls
    decreases |ls|
  {
    if |ls| == 1 {
      SplitSingle(ls[0]);
    } else {
      SplitJoin(ls[1..]);
      SplitAfterLine(ls[0], Join(ls[1..]));
      assert [ls[0]] + ls[1..] == ls;
    }
  }

  /** The empty text is a single empty line. */
  lemma SplitEmpty()
    ensures Split([]) == [[]]
  {
  }
}
