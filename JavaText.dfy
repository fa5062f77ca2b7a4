/** The few pieces of the Java standard library whose exact behaviour the
    tokenizer depends on: Arrays.toString(char[]), Integer-to-String,
    String.indexOf(String, int) and String.split. */
module JavaText {

  /** The elements of cs joined by ", ", as Arrays.toString lays them out. */
  function JoinChars(cs: seq<char>): string
  {
    if |cs| == 0 then ""
    else if |cs| == 1 then [cs[0]]
    else [cs[0]] + ", " + JoinChars(cs[1..])
  }

  /** Arrays.toString(char[]): "[c1, c2, ..., cn]". */
  function ArraysToString(cs: seq<char>): string
  {
    "[" + JoinChars(cs) + "]"
  }

  lemma {:induction false} InJoinChars(cs: seq<char>, c: char)
    ensures c in JoinChars(cs) <==> c in cs || (|cs| >= 2 && (c == ',' || c == ' '))
  {
    if |cs| >= 2 {
      InJoinChars(cs[1..], c);
      assert JoinChars(cs) == [cs[0]] + ", " + JoinChars(cs[1..]);
      assert cs == [cs[0]] + cs[1..];
      if |cs| == 2 {
        assert JoinChars(cs[1..]) == [cs[1]];
      }
    }
  }

  /** Membership in Arrays.toString(targets), which is how the lexers test a
      character against a target list: the brackets always match, and the
      separator characters ',' and ' ' match once there are two targets. */
  lemma InArraysToString(cs: seq<char>, c: char)
    ensures c in ArraysToString(cs) <==>
              c == '[' || c == ']' || c in cs || (|cs| >= 2 && (c == ',' || c == ' '))
  {
    InJoinChars(cs, c);
  }

  function DigitChar(d: nat): (r: char)
    requires d < 10
    ensures '0' <= r <= '9'
    ensures DigitValue(r) == d
  {
    ('0' as int + d) as char
  }

  /** The value of one decimal digit character. */
  function DigitValue(c: char): nat
    requires '0' <= c <= '9'
  {
    c as int - '0' as int
  }

  /** The number a string of decimal digits spells, most significant digit first. */
  function DecimalValue(s: string): nat
    requires forall k :: 0 <= k < |s| ==> '0' <= s[k] <= '9'
  {
    if s == [] then 0 else 10 * DecimalValue(s[..|s| - 1]) + DigitValue(s[|s| - 1])
  }

  /** Decimal rendering of a non-negative int, as string concatenation does it. */
  function NatToString(n: nat): (r: string)
    ensures |r| > 0
    ensures forall k :: 0 <= k < |r| ==> '0' <= r[k] <= '9'
  {
    if n < 10 then [DigitChar(n)] else NatToString(n / 10) + [DigitChar(n % 10)]
  }

  /** Decimal rendering of an int, with a leading '-' when negative. */
  function IntToString(n: int): (r: string)
    ensures |r| > 0
    ensures n < 0 <==> r[0] == '-'
  {
    if n < 0 then "-" + NatToString(-n) else NatToString(n)
  }

  /** The digits NatToString writes spell n back, with no leading zero. */
  lemma {:induction false} NatToStringValue(n: nat)
    ensures DecimalValue(NatToString(n)) == n
    ensures NatToString(n)[0] == '0' ==> n == 0
  {
    if n >= 10 {
      NatToStringValue(n / 10);
      var s := NatToString(n / 10);
      assert NatToString(n) == s + [DigitChar(n % 10)];
      assert (s + [DigitChar(n % 10)])[..|s|] == s;
    }
  }

  /** IntToString writes the magnitude of n as NatToString does, after a '-'
      exactly when n is negative. */
  lemma IntToStringValue(n: int)
    ensures n >= 0 ==> DecimalValue(IntToString(n)) == n
    ensures n < 0 ==> IntToString(n)[1..] == NatToString(-n) && DecimalValue(IntToString(n)[1..]) == -n
  {
    if n < 0 {
      NatToStringValue(-n);
      assert IntToString(n)[1..] == NatToString(-n);
    } else {
      NatToStringValue(n);
    }
  }

  /** True when needle occurs in haystack at index k. */
  predicate OccursAt(haystack: string, needle: string, k: nat)
  {
    k + |needle| <= |haystack| && haystack[k..k + |needle|] == needle
  }

  function IndexOfFrom(haystack: string, needle: string, k: nat): (r: int)
    requires k <= |haystack|
    decreases |haystack| - k
    ensures r == -1 || (k <= r <= |haystack| && OccursAt(haystack, needle, r))
    ensures r == -1 ==> forall j :: k <= j <= |haystack| ==> !OccursAt(haystack, needle, j)
    ensures r != -1 ==> forall j :: k <= j < r ==> !OccursAt(haystack, needle, j)
  {
    if OccursAt(haystack, needle, k) then k
    else if k == |haystack| then -1
    else IndexOfFrom(haystack, needle, k + 1)
  }

  /** String.indexOf(needle, fromIndex): a negative start counts as 0 and a start
      past the end finds only the empty needle, at the end. */
  function IndexOf(haystack: string, needle: string, fromIndex: int): (r: int)
    ensures r >= -1
    ensures r != -1 ==> r <= |haystack| && OccursAt(haystack, needle, r) && (fromIndex <= r || r == |haystack|)
    ensures r != -1 ==> forall j :: 0 <= j && fromIndex <= j < r ==> !OccursAt(haystack, needle, j)
    ensures r == -1 ==> forall j :: 0 <= j && fromIndex <= j <= |haystack| ==> !OccursAt(haystack, needle, j)
  {
    var k := if fromIndex < 0 then 0 else if fromIndex > |haystack| then |haystack| else fromIndex;
    IndexOfFrom(haystack, needle, k)
  }

  /** Every piece between separators, empty ones included: n separators give n+1 pieces. */
  function SplitAll(s: string, sep: char): (r: seq<string>)
    ensures |r| >= 1
    ensures forall k :: 0 <= k < |r| ==> sep !in r[k]
  {
    if |s| == 0 then [""]
    else
      var rest := SplitAll(s[1..], sep);
      if s[0] == sep then [""] + rest else [[s[0]] + rest[0]] + rest[1..]
  }

  /** A separator-free prefix joins the first piece of what follows it. */
  lemma {:induction false} SplitAllPrefix(w: string, t: string, sep: char)
    requires sep !in w
    ensures SplitAll(w + t, sep) == [w + SplitAll(t, sep)[0]] + SplitAll(t, sep)[1..]
  {
    if |w| == 0 {
      assert w + t == t;
      assert w + SplitAll(t, sep)[0] == SplitAll(t, sep)[0];
      assert SplitAll(t, sep) == [SplitAll(t, sep)[0]] + SplitAll(t, sep)[1..];
    } else {
      SplitAllPrefix(w[1..], t, sep);
      assert (w + t)[0] == w[0] && (w + t)[1..] == w[1..] + t;
      assert [w[0]] + (w[1..] + SplitAll(t, sep)[0]) == w + SplitAll(t, sep)[0];
    }
  }

  /** Pieces joined with the separator between them. */
  function JoinWith(ps: seq<string>, sep: char): string
  {
    if |ps| == 0 then ""
    else if |ps| == 1 then ps[0]
    else ps[0] + [sep] + JoinWith(ps[1..], sep)
  }

  function DropTrailingEmpty(ps: seq<string>): (r: seq<string>)
    ensures |r| <= |ps| && r == ps[..|r|]
    ensures |r| > 0 ==> r[|r| - 1] != ""
    ensures forall k :: |r| <= k < |ps| ==> ps[k] == ""
  {
    if |ps| == 0 then []
    else if ps[|ps| - 1] == "" then DropTrailingEmpty(ps[..|ps| - 1])
    else ps
  }

  /** String.split(regex) with a regex that matches the single character sep:
      input with no separator gives itself as the one piece (even when empty);
      otherwise every piece, with the trailing empty pieces removed and a
      leading empty piece kept. */
  function JavaSplit(s: string, sep: char): seq<string>
  {
    if sep !in s then [s] else DropTrailingEmpty(SplitAll(s, sep))
  }

  lemma {:induction false} JoinSplitAll(s: string, sep: char)
    ensures JoinWith(SplitAll(s, sep), sep) == s
  {
    if |s| > 0 {
      JoinSplitAll(s[1..], sep);
      var rest := SplitAll(s[1..], sep);
      if s[0] == sep {
        assert SplitAll(s, sep) == [""] + rest;
        assert ([""] + rest)[1..] == rest;
        assert s == [s[0]] + s[1..];
      } else {
        var r := [[s[0]] + rest[0]] + rest[1..];
        if |rest| == 1 {
          assert s == [s[0]] + s[1..];
        } else {
          assert r[1..] == rest[1..];
          assert JoinWith(rest, sep) == rest[0] + [sep] + JoinWith(rest[1..], sep);
          assert s == [s[0]] + s[1..];
        }
      }
    }
  }

  lemma {:induction false} SplitAllJoin(ps: seq<string>, sep: char)
    requires |ps| >= 1
    requires forall k :: 0 <= k < |ps| ==> sep !in ps[k]
    ensures SplitAll(JoinWith(ps, sep), sep) == ps
    decreases |ps|, |ps[0]|
  {
    if |ps[0]| == 0 {
      if |ps| > 1 {
        SplitAllJoin(ps[1..], sep);
        var j := JoinWith(ps, sep);
        assert j == [sep] + JoinWith(ps[1..], sep);
        assert j[1..] == JoinWith(ps[1..], sep);
        assert ps == [""] + ps[1..];
      }
    } else {
      var c := ps[0][0];
      var ps' := [ps[0][1..]] + ps[1..];
      assert forall k :: 0 <= k < |ps'| ==> sep !in ps'[k] by {
        forall k | 0 <= k < |ps'| ensures sep !in ps'[k] {
          if k == 0 { assert ps[0] == [c] + ps[0][1..]; } else { assert ps'[k] == ps[k]; }
        }
      }
      SplitAllJoin(ps', sep);
      var j := JoinWith(ps, sep);
      assert ps[0] == [c] + ps[0][1..];
      if |ps| == 1 {
        assert j == ps[0];
        assert j[1..] == JoinWith(ps', sep);
      } else {
        assert ps'[1..] == ps[1..];
        assert j == ps[0] + [sep] + JoinWith(ps[1..], sep);
        assert JoinWith(ps', sep) == ps[0][1..] + [sep] + JoinWith(ps[1..], sep);
        assert j[1..] == JoinWith(ps', sep);
      }
      assert c != sep;
      assert j[0] == c;
      var rest := SplitAll(j[1..], sep);
      assert rest == ps';
      assert [[c] + rest[0]] + rest[1..] == ps;
    }
  }

  /** Splitting a separator-joined list of non-empty separator-free pieces gives
      the pieces back. */
  lemma JavaSplitJoin(ps: seq<string>, sep: char)
    requires |ps| >= 1
    requires forall k :: 0 <= k < |ps| ==> sep !in ps[k] && ps[k] != ""
    ensures JavaSplit(JoinWith(ps, sep), sep) == ps
  {
    SplitAllJoin(ps, sep);
    if sep in JoinWith(ps, sep) {
      assert DropTrailingEmpty(ps) == ps;
    } else {
      assert |SplitAll(JoinWith(ps, sep), sep)| == 1 by {
        SplitAllNoSep(JoinWith(ps, sep), sep);
      }
    }
  }

  lemma {:induction false} SplitAllNoSep(s: string, sep: char)
    requires sep !in s
    ensures SplitAll(s, sep) == [s]
  {
    if |s| > 0 {
      assert sep !in s[1..];
      SplitAllNoSep(s[1..], sep);
      assert s[0] != sep;
      assert [s[0]] + s[1..] == s;
    }
  }

  lemma ConcatAssoc<T>(a: seq<T>, b: seq<T>, c: seq<T>)
    ensures a + (b + c) == a + b + c
  {
  }

  /** n copies of c. */
  function Repeat(c: char, n: nat): (r: string)
    ensures |r| == n && forall k :: 0 <= k < n ==> r[k] == c
  {
    if n == 0 then "" else [c] + Repeat(c, n - 1)
  }

  /** The pieces of JavaSplit are separator-free, the last one is non-empty, and
      joining them gives back the input up to a run of trailing separators. */
  lemma JavaSplitShape(s: string, sep: char)
    requires sep in s
    ensures var r := JavaSplit(s, sep);
      (forall k :: 0 <= k < |r| ==> sep !in r[k]) &&
      (|r| > 0 ==> r[|r| - 1] != "") &&
      exists n: nat :: s == JoinWith(r, sep) + Repeat(sep, n)
  {
    var all := SplitAll(s, sep);
    var r := DropTrailingEmpty(all);
    JoinSplitAll(s, sep);
    JoinDropped(r, all[|r|..], sep);
    assert all == r + all[|r|..];
    var n := if |r| == 0 then |all| - 1 else |all| - |r|;
    assert s == JoinWith(r, sep) + Repeat(sep, n);
  }

  lemma {:induction false} JoinDropped(r: seq<string>, empties: seq<string>, sep: char)
    requires forall k :: 0 <= k < |empties| ==> empties[k] == ""
    requires |r| + |empties| > 0
    ensures JoinWith(r + empties, sep) == JoinWith(r, sep) + Repeat(sep, if |r| == 0 then |empties| - 1 else |empties|)
    decreases |r|
  {
    if |r| == 0 {
      assert r + empties == empties;
      JoinEmpties(empties, sep);
    } else if |r| == 1 {
      if |empties| > 0 {
        assert (r + empties)[1..] == empties;
        JoinEmpties(empties, sep);
        assert JoinWith(r + empties, sep) == r[0] + [sep] + JoinWith(empties, sep);
        assert [sep] + Repeat(sep, |empties| - 1) == Repeat(sep, |empties|);
      } else {
        assert r + empties == r;
      }
    } else {
      JoinDropped(r[1..], empties, sep);
      assert (r + empties)[1..] == r[1..] + empties;
      assert (r + empties)[0] == r[0];
    }
  }

  lemma {:induction false} JoinEmpties(empties: seq<string>, sep: char)
    requires |empties| > 0
    requires forall k :: 0 <= k < |empties| ==> empties[k] == ""
    ensures JoinWith(empties, sep) == Repeat(sep, |empties| - 1)
  {
    if |empties| > 1 {
      JoinEmpties(empties[1..], sep);
    }
  }
}
