/** The task file as text: a sequence of lines, each written with a trailing newline. */
module TextLines {

  /** The text of lines written one after another, each followed by '\n'. */
  function Unlines(ls: seq<string>): (s: string)
    ensures |s| >= |ls|
    ensures ls != [] ==> s[|s| - 1] == '\n'
  {
    if ls == [] then "" else ls[0] + "\n" + Unlines(ls[1..])
  }

  /** The index of the first c at or after `from`, or |s| when there is none. */
  function NextIndex(s: string, c: char, from: nat): (k: nat)
    requires from <= |s|
    ensures from <= k <= |s|
    ensures forall j :: from <= j < k ==> s[j] != c
    ensures k < |s| ==> s[k] == c
    decreases |s| - from
  {
    if from == |s| || s[from] == c then from else NextIndex(s, c, from + 1)
  }

  /** Splits text at each '\n'; a last line without a newline is kept. */
  function Lines(s: string): (ls: seq<string>)
    ensures NoNewlines(ls)
    ensures ls == [] <==> s == []
    decreases |s|
  {
    if s == [] then []
    else
      var k := NextIndex(s, '\n', 0);
      if k == |s| then [s] else [s[..k]] + Lines(s[k + 1..])
  }

  predicate NoNewlines(ls: seq<string>) {
    forall i :: 0 <= i < |ls| ==> '\n' !in ls[i]
  }

  lemma {:induction false} UnlinesAppend(a: seq<string>, b: seq<string>)
    ensures Unlines(a + b) == Unlines(a) + Unlines(b)
  {
    if a == [] {
      assert a + b == b;
    } else {
      assert (a + b)[1..] == a[1..] + b;
      UnlinesAppend(a[1..], b);
    }
  }

  /** The first line of a text is everything up to its first newline. */
  lemma LinesCons(l: string, rest: string)
    requires '\n' !in l
    ensures Lines(l + "\n" + rest) == [l] + Lines(rest)
  {
    var s := l + "\n" + rest;
    assert s[|l|] == '\n';
    forall j | 0 <= j < |l|
      ensures s[j] != '\n'
    {
      assert s[j] == l[j];
    }
    var k := NextIndex(s, '\n', 0);
    assert k == |l|;
    assert s[..k] == l;
    assert s[k + 1..] == rest;
  }

  /** Splitting written lines gives the lines back, as long as none holds a newline. */
  lemma {:induction false} LinesUnlines(ls: seq<string>)
    requires NoNewlines(ls)
    ensures Lines(Unlines(ls)) == ls
  {
    if ls != [] {
      LinesCons(ls[0], Unlines(ls[1..]));
      LinesUnlines(ls[1..]);
    }
  }

  /** The lines of several blocks, one block after another. */
  function Concat(bs: seq<seq<string>>): seq<string>
  {
    if bs == [] then [] else bs[0] + Concat(bs[1..])
  }

  lemma {:induction false} ConcatAppend(a: seq<seq<string>>, b: seq<seq<string>>)
    ensures Concat(a + b) == Concat(a) + Concat(b)
  {
    if a == [] {
      assert a + b == b;
    } else {
      assert (a + b)[1..] == a[1..] + b;
      ConcatAppend(a[1..], b);
    }
  }

  /** Blocks without newlines concatenate to lines without newlines. */
  lemma {:induction false} ConcatNoNewlines(bs: seq<seq<string>>)
    requires forall i :: 0 <= i < |bs| ==> NoNewlines(bs[i])
    ensures NoNewlines(Concat(bs))
  {
    if bs != [] {
      ConcatNoNewlines(bs[1..]);
      var b, rest := bs[0], Concat(bs[1..]);
      assert NoNewlines(b);
      assert forall i :: |b| <= i < |b + rest| ==> (b + rest)[i] == rest[i - |b|];
    }
  }
}
