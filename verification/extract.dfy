/** The example input of a puzzle, as `Client::get_test_input` finds it in
    the puzzle page with the pattern `(?s)<pre><code>(.*)</code></pre>`.
    The `(?s)` flag lets `.` match line breaks, and `.*` is greedy. The match
    therefore starts at the first opening tag that has a closing tag after
    it, and runs to the last closing tag of the page. */
module Extract {
  import opened Wrappers
  import opened Errors
  import opened Text

  const Open := "<pre><code>"
  const Close := "</code></pre>"

  /** The pattern matches with its opening tag at `p` and its closing tag at
      `q`; the captured group is what lies between them. */
  predicate IsMatch(html: string, p: int, q: int)
  {
    OccursAt(html, Open, p) && OccursAt(html, Close, q) && p + |Open| <= q
  }

  /** The match a leftmost, greedy engine reports: no match starts earlier,
      and none ends later. */
  ghost predicate IsLeftmostLongest(html: string, p: int, q: int)
  {
    IsMatch(html, p, q) && forall p', q' :: IsMatch(html, p', q') ==> p <= p' && q' <= q
  }

  /** The captured group, found by two substring searches: the first opening
      tag and the last closing tag. */
  function ExtractTestInput(html: string): (r: Result<string, Error>)
    ensures r.Ok? <==> exists p, q :: IsMatch(html, p, q)
    ensures r.Ok? ==> exists p, q :: IsLeftmostLongest(html, p, q) && r.value == html[p + |Open|..q]
    ensures r.Err? ==> r.error == TestInputNotFound
  {
    match First(html, Open)
    case None => Err(TestInputNotFound)
    case Some(p) =>
      match Last(html, Close)
      case None => Err(TestInputNotFound)
      case Some(q) =>
        if p + |Open| <= q then
          assert IsLeftmostLongest(html, p, q);
          Ok(html[p + |Open|..q])
        else
          assert forall p', q' :: !IsMatch(html, p', q') by {
            forall p', q' ensures !IsMatch(html, p', q') {
              if OccursAt(html, Open, p') && OccursAt(html, Close, q') {
                assert p <= p' && q' <= q;
              }
            }
          }
          Err(TestInputNotFound)
  }

  /** Whichever match is leftmost and longest, the extraction returns its
      group. */
  lemma ExtractFindsLeftmostLongest(html: string, p: int, q: int)
    requires IsLeftmostLongest(html, p, q)
    ensures ExtractTestInput(html) == Ok(html[p + |Open|..q])
  {
    var r := ExtractTestInput(html);
    var p0, q0 :| IsLeftmostLongest(html, p0, q0) && r.value == html[p0 + |Open|..q0];
    assert p0 <= p && p <= p0;
    assert q <= q0 && q0 <= q;
  }

  /** A page `a + <pre><code> + x + </code></pre> + b` whose only opening tag
      before the block is its own and with no closing tag after the block
      yields `x` exactly, line breaks included. */
  lemma ExtractSingleBlock(a: string, x: string, b: string)
    requires var html := a + Open + x + Close + b;
      forall j :: 0 <= j < |a| ==> !OccursAt(html, Open, j)
    requires var html := a + Open + x + Close + b;
      forall j :: |a| + |Open| + |x| < j ==> !OccursAt(html, Close, j)
    ensures ExtractTestInput(a + Open + x + Close + b) == Ok(x)
  {
    var html := a + Open + x + Close + b;
    var p, q := |a|, |a| + |Open| + |x|;
    assert html[p..p + |Open|] == Open;
    assert html[q..q + |Close|] == Close;
    assert IsMatch(html, p, q);
    assert forall p', q' :: IsMatch(html, p', q') ==> p <= p' && q' <= q;
    ExtractFindsLeftmostLongest(html, p, q);
    assert html[p + |Open|..q] == x;
  }

  /** With two blocks on the page, the greedy group runs from the first
      block's contents to the second block's contents, taking in the closing
      tag, the markup between the blocks and the second opening tag. */
  lemma ExtractSpansBlocks(a: string, x: string, m: string, y: string, b: string)
    requires var html := a + Open + x + Close + m + Open + y + Close + b;
      forall j :: 0 <= j < |a| ==> !OccursAt(html, Open, j)
    requires var html := a + Open + x + Close + m + Open + y + Close + b;
      forall j :: |html| - |Close| - |b| < j ==> !OccursAt(html, Close, j)
    ensures ExtractTestInput(a + Open + x + Close + m + Open + y + Close + b)
         == Ok(x + Close + m + Open + y)
  {
    var inner := x + Close + m + Open + y;
    assert a + Open + x + Close + m + Open + y + Close + b == a + Open + inner + Close + b;
    ExtractSingleBlock(a, inner, b);
  }

  /** The page fragment `<pre><code>1,2,3\n4,5,6</code></pre>` yields the two
      lines between the tags. */
  lemma ExtractExampleFragment()
    ensures ExtractTestInput("<pre><code>1,2,3\n4,5,6</code></pre>") == Ok("1,2,3\n4,5,6")
  {
    assert "<pre><code>1,2,3\n4,5,6</code></pre>" == "" + Open + "1,2,3\n4,5,6" + Close + "";
    ExtractSingleBlock("", "1,2,3\n4,5,6", "");
  }
}
