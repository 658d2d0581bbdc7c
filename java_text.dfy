/**
 * The few `java.lang.String` and `java.util.List` operations that `CLIArgs` relies on,
 * each stated by what it returns rather than by how the JDK computes it.
 */
module JavaText {

  /** `s.startsWith(prefix)`. */
  predicate StartsWith(s: string, prefix: string) {
    prefix <= s
  }

  /** `s.replace("c", "")`: `s` with every occurrence of the character `c` deleted. */
  function DeleteChar(s: string, c: char): (r: string)
    ensures c !in r
    ensures |r| <= |s|
  {
    if s == [] then [] else (if s[0] == c then [] else [s[0]]) + DeleteChar(s[1..], c)
  }

  /** Every other character survives as often as it occurs; every `c` is gone. */
  lemma {:induction false} DeleteCharCounts(s: string, c: char)
    ensures forall x :: multiset(DeleteChar(s, c))[x] == if x == c then 0 else multiset(s)[x]
  {
    if s != [] {
      assert s == [s[0]] + s[1..];
      DeleteCharCounts(s[1..], c);
    }
  }

  /** Deleting distributes over concatenation, so the characters that remain keep their order. */
  lemma {:induction false} DeleteCharAppend(a: string, b: string, c: char)
    ensures DeleteChar(a + b, c) == DeleteChar(a, c) + DeleteChar(b, c)
  {
    if a != [] {
      assert (a + b)[0] == a[0];
      assert (a + b)[1..] == a[1..] + b;
      DeleteCharAppend(a[1..], b, c);
    } else {
      assert a + b == b;
    }
  }

  /** Deleting `c` keeps every other character that occurs, and adds none. */
  lemma DeleteCharKeepsOthers(s: string, c: char, x: char)
    requires x != c
    ensures x in DeleteChar(s, c) <==> x in s
  {
    DeleteCharCounts(s, c);
    assert x in DeleteChar(s, c) <==> x in multiset(DeleteChar(s, c));
    assert x in s <==> x in multiset(s);
  }

  /** A string made of `c` only is deleted entirely. */
  lemma {:induction false} DeleteCharAll(s: string, c: char)
    requires forall i :: 0 <= i < |s| ==> s[i] == c
    ensures DeleteChar(s, c) == []
  {
    if s != [] {
      DeleteCharAll(s[1..], c);
    }
  }

  /** A string without `c` is left as it is. */
  lemma {:induction false} DeleteCharAbsent(s: string, c: char)
    requires c !in s
    ensures DeleteChar(s, c) == s
  {
    if s != [] {
      assert c !in s[1..];
      DeleteCharAbsent(s[1..], c);
    }
  }

  /** `s.lastIndexOf(c)`: the position of the last `c` in `s`, or -1 when there is none. */
  function LastIndexOf(s: string, c: char): (r: int)
    ensures -1 <= r < |s|
    ensures r >= 0 ==> s[r] == c
    ensures forall j :: r < j < |s| ==> s[j] != c
    ensures r < 0 <==> c !in s
  {
    if s == [] then -1
    else if s[|s| - 1] == c then |s| - 1
    else
      assert s == s[..|s| - 1] + [s[|s| - 1]];
      LastIndexOf(s[..|s| - 1], c)
  }

  /** `list.indexOf(x)`: the position of the first element equal to `x`, or -1 when there is none. */
  function IndexOf<T(==)>(xs: seq<T>, x: T): (r: int)
    ensures -1 <= r < |xs|
    ensures r >= 0 ==> xs[r] == x && x !in xs[..r]
    ensures r < 0 <==> x !in xs
  {
    if xs == [] then -1
    else if xs[0] == x then 0
    else
      assert xs == [xs[0]] + xs[1..];
      var k := IndexOf(xs[1..], x);
      if k < 0 then -1
      else
        assert xs[..k + 1] == [xs[0]] + xs[1..][..k];
        k + 1
  }

  /** The summed length of the strings in `parts`. */
  function TotalLength(parts: seq<string>): nat {
    if parts == [] then 0 else |parts[0]| + TotalLength(parts[1..])
  }

  /** `String.join(sep, parts)`: the parts in order, with `sep` between each two neighbours. */
  function Join(sep: string, parts: seq<string>): (r: string)
    ensures |parts| == 0 ==> r == ""
    ensures |parts| > 0 ==> parts[0] <= r && |r| == TotalLength(parts) + (|parts| - 1) * |sep|
  {
    if |parts| == 0 then ""
    else if |parts| == 1 then parts[0]
    else parts[0] + sep + Join(sep, parts[1..])
  }

  /** Two parts are joined with one separator between them. */
  lemma JoinTwo(sep: string, a: string, b: string)
    ensures Join(sep, [a, b]) == a + sep + b
  {
    assert [a, b][1..] == [b];
  }
}
