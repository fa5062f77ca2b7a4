/** JBashUtils.findFirstOf and its FindResult record. */
module JBashUtils {
  import opened Outcomes
  import opened JavaText

  datatype FindResult = FindResult(str: string, index: int)

  /** The reduce identity, which the code also returns for "nothing found". */
  const NotFound := FindResult("", -1)

  /** One (needle, indexOf) pair per needle, in needle order. */
  function Located(haystack: string, startIndex: int, needles: seq<string>): (r: seq<FindResult>)
    ensures |r| == |needles|
    ensures forall k :: 0 <= k < |r| ==> r[k] == FindResult(needles[k], IndexOf(haystack, needles[k], startIndex))
  {
    if |needles| == 0 then []
    else [FindResult(needles[0], IndexOf(haystack, needles[0], startIndex))] + Located(haystack, startIndex, needles[1..])
  }

  /** The pairs whose index is not -1, in order. */
  function Found(rs: seq<FindResult>): (r: seq<FindResult>)
    ensures forall k :: 0 <= k < |r| ==> r[k] in rs && r[k].index != -1
    ensures forall x :: x in rs && x.index != -1 ==> x in r
  {
    if |rs| == 0 then []
    else if rs[0].index != -1 then [rs[0]] + Found(rs[1..])
    else Found(rs[1..])
  }

  /** The reduce step (a, b) -> a.index < b.index ? a : b. */
  function Earlier(a: FindResult, b: FindResult): FindResult
  {
    if a.index < b.index then a else b
  }

  /** Stream.reduce(identity, Earlier) as a sequential left fold. */
  function Reduce(acc: FindResult, rs: seq<FindResult>): FindResult
    decreases |rs|
  {
    if |rs| == 0 then acc else Reduce(Earlier(acc, rs[0]), rs[1..])
  }

  /** findFirstOf(haystack, startIndex, needles...): an empty needle list is a
      RuntimeException; otherwise the reduction of the found pairs. */
  function FindFirstOf(haystack: string, startIndex: int, needles: seq<string>): (r: Result<FindResult>)
    ensures r.Ok? <==> |needles| > 0
    ensures r.Err? <==> |needles| == 0
  {
    if |needles| == 0 then
      Err("Improper use of findFirstOf: needles.length() must be greater than 0")
    else
      Ok(Reduce(NotFound, Found(Located(haystack, startIndex, needles))))
  }

  lemma {:induction false} ReduceFromNotFound(rs: seq<FindResult>)
    requires forall k :: 0 <= k < |rs| ==> rs[k].index >= 0
    ensures Reduce(NotFound, rs) == NotFound
  {
    if |rs| > 0 {
      assert Earlier(NotFound, rs[0]) == NotFound;
      ReduceFromNotFound(rs[1..]);
    }
  }

  /** Whatever the haystack and needles, a non-empty needle list yields ("", -1):
      every surviving index is at least 0, so the identity -1 wins each comparison. */
  lemma FindFirstOfNeverFinds(haystack: string, startIndex: int, needles: seq<string>)
    requires |needles| > 0
    ensures FindFirstOf(haystack, startIndex, needles) == Ok(NotFound)
  {
    var found := Found(Located(haystack, startIndex, needles));
    forall k | 0 <= k < |found| ensures found[k].index >= 0 {
      var x := found[k];
      assert x in Located(haystack, startIndex, needles);
    }
    ReduceFromNotFound(found);
  }

  /** The documented behaviour (the first match) differs from the code: the quote
      in "a'b" is found by indexOf, yet findFirstOf reports no match. */
  lemma FindFirstOfIgnoresMatch()
    ensures IndexOf("a'b", "'", 0) == 1
    ensures FindFirstOf("a'b", 0, ["'", "\""]) == Ok(NotFound)
  {
    assert OccursAt("a'b", "'", 1) by {
      assert "a'b"[1..2] == "'";
    }
    assert !OccursAt("a'b", "'", 0) by {
      assert "a'b"[0..1] == "a";
    }
    FindFirstOfNeverFinds("a'b", 0, ["'", "\""]);
  }
}
