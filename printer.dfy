/**
 * The results summary (src/printer.js): for each results file whose name matches
 * the pattern, the first time its `finalUrl` is seen, a header line with the URL
 * and one line per category with the title padded to a column and the score.
 *
 * The results directory is its listing, in order, each name with the result the
 * file parses to. A category's score is kept as the text the number prints as.
 */
module Printer {
  import opened Wrappers
  import opened Strings

  datatype Category = Category(title: string, score: string)

  /** A Lighthouse result: its final URL and its categories in key order. */
  datatype Lhr = Lhr(finalUrl: string, categories: seq<Category>)

  type Listing = seq<(string, Lhr)>

  /** The width buffer pads to when no width is given. */
  const DefaultWidth := 25

  // ---------------------------------------------------------------- buffer

  /**
   * buffer: the spaces that bring `msg` and one more character to `length`
   * columns (25 when no length is given); nothing when it is already that wide.
   */
  function Buffer(msg: string, length: Option<int>): (pad: string)
    ensures forall i :: 0 <= i < |pad| ==> pad[i] == ' '
    ensures |pad| == Max(0, (if length.Some? then length.value else DefaultWidth) - |msg| - 1)
  {
    var width := if length.None? then DefaultWidth else length.value;
    var n := width - |msg| - 1;
    if n > 0 then Repeat(' ', n) else ""
  }

  /** Leaving out the length is the same as asking for 25 columns. */
  lemma BufferDefaultWidth(msg: string)
    ensures Buffer(msg, None) == Buffer(msg, Some(25))
  {
  }

  /** A title, its colon and its buffer fill 25 columns, or just the title and colon when longer. */
  lemma PaddedTitleWidth(title: string)
    ensures |title + ":" + Buffer(title, Some(25))| == Max(|title| + 1, 25)
  {
  }

  function CategoryLine(c: Category): string {
    "\t" + c.title + ":" + Buffer(c.title, Some(25)) + c.score
  }

  /** Every category line is a tab, the title padded to its column, then the score. */
  lemma CategoryLineColumn(c: Category)
    ensures var head := "\t" + c.title + ":" + Buffer(c.title, Some(25));
      CategoryLine(c) == head + c.score && |head| == 1 + Max(|c.title| + 1, 25)
      && head[..1 + |c.title|] == "\t" + c.title
      && forall i :: 2 + |c.title| <= i < |head| ==> head[i] == ' '
  {
    var pad := Buffer(c.title, Some(25));
    var head := "\t" + c.title + ":" + pad;
    assert head[..1 + |c.title|] == "\t" + c.title;
    forall i | 2 + |c.title| <= i < |head| ensures head[i] == ' ' {
      assert head[i] == pad[i - 2 - |c.title|];
    }
  }

  // ---------------------------------------------------------------- file filter

  /**
   * The pattern `lhr-\d+.json` matches at `start` with `digits` digits: "lhr-",
   * the digits, any one character but a line terminator, then "json".
   */
  predicate MatchesAt(name: string, start: nat, digits: nat) {
    1 <= digits && start + digits + 9 <= |name|
    && name[start..start + 4] == "lhr-"
    && (forall j :: start + 4 <= j < start + 4 + digits ==> IsAsciiDigit(name[j]))
    && !IsLineTerminator(name[start + 4 + digits])
    && name[start + 5 + digits..start + 9 + digits] == "json"
  }

  /** `name.match(/lhr-\d+.json/g)` is not null: the pattern matches somewhere in `name`. */
  predicate IsLhrFileName(name: string) {
    exists start, digits | 0 <= start < |name| && 1 <= digits <= |name| :: MatchesAt(name, start, digits)
  }

  /** A typical report name matches. */
  lemma LhrFileNameTypical()
    ensures IsLhrFileName("lhr-1234.json")
  {
    var name := "lhr-1234.json";
    assert name[0..4] == "lhr-";
    assert name[9..13] == "json";
    assert MatchesAt(name, 0, 4);
  }

  /** The `.` of the pattern is not escaped, so any character other than a line break stands for it. */
  lemma LhrFileNameAnyDot()
    ensures IsLhrFileName("lhr-12json")
  {
    var name := "lhr-12json";
    assert name[0..4] == "lhr-";
    assert name[6..10] == "json";
    assert MatchesAt(name, 0, 1);
  }

  /** The pattern is not anchored: it may match in the middle of a name. */
  lemma LhrFileNameUnanchored()
    ensures IsLhrFileName("old-lhr-7.json.bak")
  {
    var name := "old-lhr-7.json.bak";
    assert name[4..8] == "lhr-";
    assert name[10..14] == "json";
    assert MatchesAt(name, 4, 1);
  }

  /** At least one digit is needed after `lhr-`. */
  lemma LhrFileNameNeedsDigit()
    ensures !IsLhrFileName("lhr-.json")
  {
  }

  /** A name without `lhr-` in it does not match. */
  lemma LhrFileNameNeedsPrefix()
    ensures !IsLhrFileName("report.json")
  {
    var name := "report.json";
    forall start, digits | 0 <= start < |name| && 1 <= digits <= |name|
      ensures !MatchesAt(name, start, digits)
    {
      if start + digits + 9 <= |name| {
        assert name[start..start + 4][0] == name[start] != 'l';
      }
    }
  }

  /** The results of the files whose names match, in listing order. */
  function MatchingLhrs(files: Listing): (lhrs: seq<Lhr>)
    ensures |lhrs| <= |files|
  {
    if |files| == 0 then []
    else
      var init := MatchingLhrs(files[..|files| - 1]);
      if IsLhrFileName(files[|files| - 1].0) then init + [files[|files| - 1].1] else init
  }

  /** `lhr` is the result of some file in the listing whose name matches. */
  predicate FromMatchingFile(files: Listing, lhr: Lhr) {
    exists i :: 0 <= i < |files| && IsLhrFileName(files[i].0) && files[i].1 == lhr
  }

  /** Only results of files whose names match are considered, and all of those are. */
  lemma {:induction false} MatchingLhrsOnlyMatching(files: Listing)
    ensures forall k :: 0 <= k < |MatchingLhrs(files)| ==> FromMatchingFile(files, MatchingLhrs(files)[k])
    ensures forall i :: 0 <= i < |files| && IsLhrFileName(files[i].0) ==> files[i].1 in MatchingLhrs(files)
    decreases |files|
  {
    if |files| > 0 {
      var init := files[..|files| - 1];
      MatchingLhrsOnlyMatching(init);
      var m := MatchingLhrs(files);
      var mi := MatchingLhrs(init);
      forall k | 0 <= k < |m| ensures FromMatchingFile(files, m[k]) {
        if k < |mi| {
          assert m[k] == mi[k];
          assert FromMatchingFile(init, mi[k]);
          var i :| 0 <= i < |init| && IsLhrFileName(init[i].0) && init[i].1 == mi[k];
          assert files[i] == init[i];
        } else {
          var n := |files| - 1;
          assert m[k] == files[n].1 && IsLhrFileName(files[n].0);
        }
      }
      forall i | 0 <= i < |files| && IsLhrFileName(files[i].0) ensures files[i].1 in m {
        if i < |init| {
          assert files[i] == init[i];
          assert files[i].1 in mi;
        }
      }
    }
  }

  // ---------------------------------------------------------------- dedup by finalUrl

  function Urls(lhrs: seq<Lhr>): (urls: seq<string>)
    ensures |urls| == |lhrs|
  {
    seq(|lhrs|, i requires 0 <= i < |lhrs| => lhrs[i].finalUrl)
  }

  predicate NoDuplicates(s: seq<string>) {
    forall i, j :: 0 <= i < j < |s| ==> s[i] != s[j]
  }

  /** No earlier result has the same final URL as result `i`. */
  predicate IsFirstAt(lhrs: seq<Lhr>, i: int) {
    0 <= i < |lhrs| && forall j :: 0 <= j < i ==> lhrs[j].finalUrl != lhrs[i].finalUrl
  }

  /** The results kept: each one whose final URL no earlier result had, in order. */
  function FirstPerUrl(lhrs: seq<Lhr>): (firsts: seq<Lhr>)
    ensures |firsts| <= |lhrs|
  {
    if |lhrs| == 0 then []
    else
      var init := lhrs[..|lhrs| - 1];
      var last := lhrs[|lhrs| - 1];
      if last.finalUrl in Urls(init) then FirstPerUrl(init) else FirstPerUrl(init) + [last]
  }

  lemma UrlsAppend(lhrs: seq<Lhr>, x: Lhr)
    ensures Urls(lhrs + [x]) == Urls(lhrs) + [x.finalUrl]
  {
  }

  /** Deduplication drops no final URL and invents none. */
  lemma {:induction false} FirstPerUrlSameUrls(lhrs: seq<Lhr>)
    ensures forall u :: u in Urls(FirstPerUrl(lhrs)) <==> u in Urls(lhrs)
    decreases |lhrs|
  {
    if |lhrs| > 0 {
      var init := lhrs[..|lhrs| - 1];
      var last := lhrs[|lhrs| - 1];
      FirstPerUrlSameUrls(init);
      assert lhrs == init + [last];
      UrlsAppend(init, last);
      if last.finalUrl !in Urls(init) {
        UrlsAppend(FirstPerUrl(init), last);
      }
    }
  }

  /** Each final URL is kept at most once. */
  lemma {:induction false} FirstPerUrlDistinct(lhrs: seq<Lhr>)
    ensures NoDuplicates(Urls(FirstPerUrl(lhrs)))
    decreases |lhrs|
  {
    if |lhrs| > 0 {
      var init := lhrs[..|lhrs| - 1];
      var last := lhrs[|lhrs| - 1];
      FirstPerUrlDistinct(init);
      if last.finalUrl !in Urls(init) {
        FirstPerUrlSameUrls(init);
        UrlsAppend(FirstPerUrl(init), last);
      }
    }
  }

  /** `lhr` is the first result in `lhrs` with its final URL. */
  predicate IsFirstOccurrence(lhrs: seq<Lhr>, lhr: Lhr) {
    exists i :: 0 <= i < |lhrs| && IsFirstAt(lhrs, i) && lhrs[i] == lhr
  }

  /**
   * The first result for a URL wins: every kept result is the first one with its
   * final URL, and every such first result is kept.
   */
  lemma {:induction false} FirstPerUrlFirstWins(lhrs: seq<Lhr>)
    ensures forall k :: 0 <= k < |FirstPerUrl(lhrs)| ==> IsFirstOccurrence(lhrs, FirstPerUrl(lhrs)[k])
    ensures forall i :: IsFirstAt(lhrs, i) ==> lhrs[i] in FirstPerUrl(lhrs)
    decreases |lhrs|
  {
    if |lhrs| > 0 {
      var init := lhrs[..|lhrs| - 1];
      var n := |lhrs| - 1;
      var last := lhrs[n];
      FirstPerUrlFirstWins(init);
      var d := FirstPerUrl(lhrs);
      var di := FirstPerUrl(init);
      forall k | 0 <= k < |d| ensures IsFirstOccurrence(lhrs, d[k]) {
        if k < |di| {
          assert d[k] == di[k];
          assert IsFirstOccurrence(init, di[k]);
          var i :| IsFirstAt(init, i) && init[i] == di[k];
          assert IsFirstAt(lhrs, i);
        } else {
          assert d[k] == last && last.finalUrl !in Urls(init);
          forall j | 0 <= j < n ensures lhrs[j].finalUrl != lhrs[n].finalUrl {
            assert Urls(init)[j] == lhrs[j].finalUrl;
          }
          assert IsFirstAt(lhrs, n);
        }
      }
      forall i | IsFirstAt(lhrs, i) ensures lhrs[i] in d {
        if i < n {
          assert lhrs[i] == init[i];
          assert IsFirstAt(init, i);
          assert init[i] in di;
        } else {
          forall j | 0 <= j < n ensures Urls(init)[j] != last.finalUrl {
            assert Urls(init)[j] == lhrs[j].finalUrl;
          }
          assert last.finalUrl !in Urls(init);
        }
      }
    }
  }

  /** Extending the list only appends to what is kept: earlier decisions never change. */
  lemma {:induction false} FirstPerUrlPrefix(lhrs: seq<Lhr>, i: nat)
    requires i <= |lhrs|
    ensures var before := FirstPerUrl(lhrs[..i]);
      |before| <= |FirstPerUrl(lhrs)| && FirstPerUrl(lhrs)[..|before|] == before
    decreases |lhrs|
  {
    if i < |lhrs| {
      var init := lhrs[..|lhrs| - 1];
      assert init[..i] == lhrs[..i];
      FirstPerUrlPrefix(init, i);
    } else {
      assert lhrs[..i] == lhrs;
    }
  }

  lemma {:induction false} MatchingLhrsPrefix(files: Listing, i: nat)
    requires i <= |files|
    ensures var before := MatchingLhrs(files[..i]);
      |before| <= |MatchingLhrs(files)| && MatchingLhrs(files[..i]) == MatchingLhrs(files)[..|before|]
    decreases |files|
  {
    if i < |files| {
      var init := files[..|files| - 1];
      assert init[..i] == files[..i];
      MatchingLhrsPrefix(init, i);
    } else {
      assert files[..i] == files;
    }
  }

  /**
   * The URLs seen after the first `i` files are a prefix of those seen after the
   * first `j`: the seen list only grows, by appending.
   */
  lemma SeenOnlyGrows(files: Listing, i: nat, j: nat)
    requires i <= j <= |files|
    ensures var seenI := Urls(FirstPerUrl(MatchingLhrs(files[..i])));
      var seenJ := Urls(FirstPerUrl(MatchingLhrs(files[..j])));
      |seenI| <= |seenJ| && seenJ[..|seenI|] == seenI
  {
    var fj := files[..j];
    assert fj[..i] == files[..i];
    MatchingLhrsPrefix(fj, i);
    var m := MatchingLhrs(fj);
    var before := MatchingLhrs(files[..i]);
    assert m[..|before|] == before;
    FirstPerUrlPrefix(m, |before|);
    var d := FirstPerUrl(m);
    var dI := FirstPerUrl(before);
    assert d[..|dI|] == dI;
    assert Urls(d)[..|dI|] == Urls(dI);
  }

  // ---------------------------------------------------------------- lines

  function CategoryLines(categories: seq<Category>): (lines: seq<string>)
    ensures |lines| == |categories|
  {
    seq(|categories|, k requires 0 <= k < |categories| => CategoryLine(categories[k]))
  }

  /** The lines for one result: its URL, then one line per category. */
  function Block(lhr: Lhr): seq<string> {
    [lhr.finalUrl] + CategoryLines(lhr.categories)
  }

  function Render(lhrs: seq<Lhr>): seq<string> {
    if |lhrs| == 0 then [] else Render(lhrs[..|lhrs| - 1]) + Block(lhrs[|lhrs| - 1])
  }

  /** The results logSummary prints: the first matching one per final URL. */
  function Kept(files: Listing): seq<Lhr> {
    FirstPerUrl(MatchingLhrs(files))
  }

  /** Everything logSummary prints between the start and the end of its group. */
  function Summary(files: Listing): seq<string> {
    Render(Kept(files))
  }

  lemma {:induction false} RenderAppend(a: seq<Lhr>, b: seq<Lhr>)
    ensures Render(a + b) == Render(a) + Render(b)
    decreases |b|
  {
    if |b| == 0 {
      assert a + b == a;
    } else {
      var b' := b[..|b| - 1];
      assert (a + b)[..|a + b| - 1] == a + b';
      RenderAppend(a, b');
    }
  }

  /**
   * The output is the blocks of the kept results one after another: the k-th
   * URL's header is followed by exactly one line per category, in category order.
   */
  lemma RenderAt(lhrs: seq<Lhr>, k: nat)
    requires k < |lhrs|
    ensures var block := Block(lhrs[k]);
      Render(lhrs) == Render(lhrs[..k]) + block + Render(lhrs[k + 1..])
      && |block| == 1 + |lhrs[k].categories|
      && block[0] == lhrs[k].finalUrl
      && forall j :: 0 <= j < |lhrs[k].categories| ==> block[1 + j] == CategoryLine(lhrs[k].categories[j])
  {
    assert lhrs == lhrs[..k] + [lhrs[k]] + lhrs[k + 1..];
    RenderAppend(lhrs[..k] + [lhrs[k]], lhrs[k + 1..]);
    RenderAppend(lhrs[..k], [lhrs[k]]);
    assert [lhrs[k]][..0] == [];
  }

  /** A file whose name does not match adds nothing to the output. */
  lemma NonMatchingFileIgnored(files: Listing, name: string, lhr: Lhr)
    requires !IsLhrFileName(name)
    ensures Kept(files + [(name, lhr)]) == Kept(files)
    ensures Summary(files + [(name, lhr)]) == Summary(files)
  {
    var ext := files + [(name, lhr)];
    assert ext[..|ext| - 1] == files;
  }

  /** A matching file whose final URL an earlier matching file already had adds nothing. */
  lemma RepeatedUrlIgnored(files: Listing, name: string, lhr: Lhr)
    requires lhr.finalUrl in Urls(MatchingLhrs(files))
    ensures Kept(files + [(name, lhr)]) == Kept(files)
    ensures Summary(files + [(name, lhr)]) == Summary(files)
  {
    var ext := files + [(name, lhr)];
    assert ext[..|ext| - 1] == files;
    if IsLhrFileName(name) {
      var m := MatchingLhrs(files);
      assert MatchingLhrs(ext) == m + [lhr];
      assert (m + [lhr])[..|m|] == m;
    }
  }

  /** A matching file with a final URL not seen before appends its block to the output. */
  lemma NewUrlAppendsBlock(files: Listing, name: string, lhr: Lhr)
    requires IsLhrFileName(name)
    requires lhr.finalUrl !in Urls(MatchingLhrs(files))
    ensures Kept(files + [(name, lhr)]) == Kept(files) + [lhr]
    ensures Summary(files + [(name, lhr)]) == Summary(files) + Block(lhr)
  {
    var ext := files + [(name, lhr)];
    assert ext[..|ext| - 1] == files;
    var m := MatchingLhrs(files);
    assert MatchingLhrs(ext) == m + [lhr];
    assert (m + [lhr])[..|m|] == m;
    var d := Kept(files) + [lhr];
    assert d[..|d| - 1] == Kept(files);
  }

  // ---------------------------------------------------------------- logSummary

  /** The body of logSummary's callback for a result it prints: the URL, then each category. */
  method LogResult(lhr: Lhr) returns (lines: seq<string>)
    ensures lines == Block(lhr)
  {
    lines := [lhr.finalUrl];
    var categories := lhr.categories;
    for k := 0 to |categories|
      invariant lines == [lhr.finalUrl] + CategoryLines(categories[..k])
    {
      assert CategoryLines(categories[..k + 1]) == CategoryLines(categories[..k]) + [CategoryLine(categories[k])];
      lines := lines + [CategoryLine(categories[k])];
    }
    assert categories[..|categories|] == categories;
  }

  /**
   * logSummary: goes through the listing, skips names that do not match and
   * results whose URL it has seen, and prints the rest.
   */
  method LogSummary(files: Listing) returns (lines: seq<string>)
    ensures lines == Summary(files)
  {
    lines := [];
    var seen: seq<string> := [];
    for i := 0 to |files|
      invariant seen == Urls(Kept(files[..i]))
      invariant lines == Summary(files[..i])
    {
      var name := files[i].0;
      var lhr := files[i].1;
      assert files[..i + 1] == files[..i] + [(name, lhr)];
      FirstPerUrlSameUrls(MatchingLhrs(files[..i]));
      if !IsLhrFileName(name) {
        NonMatchingFileIgnored(files[..i], name, lhr);
      } else if lhr.finalUrl in seen {
        RepeatedUrlIgnored(files[..i], name, lhr);
      } else {
        NewUrlAppendsBlock(files[..i], name, lhr);
        UrlsAppend(Kept(files[..i]), lhr);
        seen := seen + [lhr.finalUrl];
        var block := LogResult(lhr);
        lines := lines + block;
      }
    }
    assert files[..|files|] == files;
  }
}
