/** The JavaScript string operations the calculator relies on, on `string` (= `seq<char>`):
    counting a character, `endsWith`, `lastIndexOf`, `substring(0, end)`, `split`, `join`
    and `replace(/c/g, '')`. */
module JsString {

  /** Number of occurrences of `c` in `s`. */
  function Count(s: string, c: char): (n: nat)
    ensures n == 0 <==> c !in s
    ensures n <= |s|
  {
    if s == [] then 0
    else
      assert c in s <==> s[0] == c || c in s[1..];
      (if s[0] == c then 1 else 0) + Count(s[1..], c)
  }

  lemma {:induction false} CountAppend(a: string, b: string, c: char)
    ensures Count(a + b, c) == Count(a, c) + Count(b, c)
  {
    if a == [] {
      assert a + b == b;
    } else {
      assert (a + b)[1..] == a[1..] + b;
      CountAppend(a[1..], b, c);
    }
  }

  /** `s.endsWith(suffix)`. */
  predicate EndsWith(s: string, suffix: string)
  {
    |suffix| <= |s| && s[|s| - |suffix|..] == suffix
  }

  /** `s.lastIndexOf(c)` for a one-character search string: the last index holding `c`, or -1. */
  function LastIndexOf(s: string, c: char): (i: int)
    ensures -1 <= i < |s|
    ensures i == -1 <==> c !in s
    ensures 0 <= i ==> s[i] == c && c !in s[i + 1..]
  {
    if s == [] then -1
    else if s[|s| - 1] == c then |s| - 1
    else
      var i := LastIndexOf(s[..|s| - 1], c);
      assert s == s[..|s| - 1] + [s[|s| - 1]];
      assert 0 <= i ==> s[i + 1..] == s[..|s| - 1][i + 1..] + [s[|s| - 1]];
      i
  }

  /** `s.substring(0, end)`: JavaScript clamps a negative `end` to 0. */
  function SubstringTo(s: string, end: int): string
    requires end <= |s|
  {
    if end < 0 then [] else s[..end]
  }

  /** `s.replace(/c/g, '')`: every occurrence of `c` removed, everything else kept in order. */
  function RemoveAll(s: string, c: char): (r: string)
    ensures c !in r
    ensures |r| == |s| - Count(s, c)
    ensures c !in s ==> r == s
  {
    if s == [] then []
    else (if s[0] == c then [] else [s[0]]) + RemoveAll(s[1..], c)
  }

  lemma {:induction false} RemoveAllAppend(a: string, b: string, c: char)
    ensures RemoveAll(a + b, c) == RemoveAll(a, c) + RemoveAll(b, c)
  {
    if a == [] {
      assert a + b == b;
    } else {
      assert (a + b)[1..] == a[1..] + b;
      RemoveAllAppend(a[1..], b, c);
    }
  }

  /** Removing `c` leaves the number of every other character `d` as it was. */
  lemma {:induction false} RemoveAllKeepsCount(s: string, c: char, d: char)
    requires c != d
    ensures Count(RemoveAll(s, c), d) == Count(s, d)
  {
    if s != [] {
      RemoveAllKeepsCount(s[1..], c, d);
      CountAppend(if s[0] == c then [] else [s[0]], RemoveAll(s[1..], c), d);
    }
  }

  /** `parts.join(sep)`. */
  function Join(parts: seq<string>, sep: char): string
    requires |parts| >= 1
  {
    if |parts| == 1 then parts[0] else parts[0] + [sep] + Join(parts[1..], sep)
  }

  /** `s.split(sep)` for a one-character separator: the maximal separator-free pieces, in order.
      There is always one more piece than there are separators. */
  function Split(s: string, sep: char): (parts: seq<string>)
    ensures |parts| == Count(s, sep) + 1
  {
    if s == [] then [[]]
    else
      var rest := Split(s[1..], sep);
      if s[0] == sep then [[]] + rest else [[s[0]] + rest[0]] + rest[1..]
  }

  /** No piece of `split` holds the separator. */
  lemma {:induction false} SplitPiecesFree(s: string, sep: char)
    ensures forall i :: 0 <= i < |Split(s, sep)| ==> sep !in Split(s, sep)[i]
  {
    if s != [] {
      SplitPiecesFree(s[1..], sep);
      var rest := Split(s[1..], sep);
      if s[0] != sep {
        assert sep !in [s[0]] + rest[0];
        assert forall i :: 1 <= i < |Split(s, sep)| ==> Split(s, sep)[i] == rest[i];
      }
    }
  }

  /** Joining the pieces of `split` gives the string back. */
  lemma {:induction false} JoinSplit(s: string, sep: char)
    ensures Join(Split(s, sep), sep) == s
  {
    if s != [] {
      var rest := Split(s[1..], sep);
      JoinSplit(s[1..], sep);
      if s[0] == sep {
        JoinCons([], rest, sep);
      } else {
        JoinPrepend(s[0], rest, sep);
      }
      assert s == [s[0]] + s[1..];
    }
  }

  lemma JoinCons(h: string, rest: seq<string>, sep: char)
    requires |rest| >= 1
    ensures Join([h] + rest, sep) == h + [sep] + Join(rest, sep)
  {
    assert ([h] + rest)[1..] == rest;
  }

  lemma JoinPrepend(c: char, parts: seq<string>, sep: char)
    requires |parts| >= 1
    ensures Join([[c] + parts[0]] + parts[1..], sep) == [c] + Join(parts, sep)
  {
    var q := [[c] + parts[0]] + parts[1..];
    if |parts| == 1 {
      assert q == [[c] + parts[0]];
    } else {
      JoinCons([c] + parts[0], parts[1..], sep);
      JoinCons(parts[0], parts[1..], sep);
      assert parts == [parts[0]] + parts[1..];
    }
  }

  /** A separator-free string splits into itself alone. */
  lemma {:induction false} SplitWithoutSeparator(s: string, sep: char)
    requires sep !in s
    ensures Split(s, sep) == [s]
  {
    if s != [] {
      assert sep !in s[1..];
      SplitWithoutSeparator(s[1..], sep);
      assert s == [s[0]] + s[1..];
    }
  }

  /** The first piece of `split` is the text before the first separator, and what follows it is
      either nothing or starts with the separator. */
  lemma {:induction false} SplitHead(s: string, sep: char)
    ensures |Split(s, sep)[0]| <= |s|
    ensures Split(s, sep)[0] == s[..|Split(s, sep)[0]|]
    ensures var k := |Split(s, sep)[0]|; k == |s| || s[k] == sep
    ensures |Split(s, sep)| == 1 <==> |Split(s, sep)[0]| == |s|
  {
    var parts := Split(s, sep);
    JoinSplit(s, sep);
    if |parts| == 1 {
      assert Join(parts, sep) == parts[0];
    } else {
      assert Join(parts, sep) == parts[0] + [sep] + Join(parts[1..], sep);
    }
  }

  /** Splitting `a + b`, where `a` holds no separator and `b` is empty or starts with one,
      gives `a` as the first piece. */
  lemma {:induction false} SplitFirstPiece(a: string, b: string, sep: char)
    requires sep !in a
    requires b == [] || b[0] == sep
    ensures Split(a + b, sep)[0] == a
  {
    if a == [] {
      assert a + b == b;
    } else {
      assert (a + b)[1..] == a[1..] + b;
      SplitFirstPiece(a[1..], b, sep);
      assert a == [a[0]] + a[1..];
    }
  }

  /** Putting a new first piece `h` in place of `parts[0]` and joining replaces exactly the text
      before the first separator of the joined string. */
  lemma JoinReplaceHead(parts: seq<string>, h: string, sep: char)
    requires |parts| >= 1
    ensures |parts[0]| <= |Join(parts, sep)|
    ensures Join([h] + parts[1..], sep) == h + Join(parts, sep)[|parts[0]|..]
  {
    var q := [h] + parts[1..];
    if |parts| == 1 {
      assert Join(q, sep) == h;
    } else {
      assert q[1..] == parts[1..];
      assert Join(q, sep) == h + [sep] + Join(parts[1..], sep);
      assert Join(parts, sep) == parts[0] + ([sep] + Join(parts[1..], sep));
    }
  }

  /** Splitting at a separator splits the two sides independently. */
  lemma {:induction false} SplitAppend(a: string, b: string, sep: char)
    ensures Split(a + [sep] + b, sep) == Split(a, sep) + Split(b, sep)
  {
    if a == [] {
      assert a + [sep] + b == [sep] + b;
      assert ([sep] + b)[1..] == b;
    } else {
      assert (a + [sep] + b)[1..] == a[1..] + [sep] + b;
      SplitAppend(a[1..], b, sep);
    }
  }
}
