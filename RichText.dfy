/** The rich note editor (`ImageEditText.java`): a plain text holding "[IMG]" markers, the list of
    base64 JPEG payloads the markers stand for, and the conversion of the two to and from the
    HTML that is stored as a note's description. */
module RichText {
  import opened Nullable
  import opened Strings

  /** The placeholder the editor text holds for an image. */
  const Marker: string := "[IMG]"
  /** The literal start of the pattern that finds payloads again in HTML. */
  const SrcPrefix: string := "src=\"data:image/jpeg;base64,"
  /** What each payload is wrapped in on the way to HTML: `<img src="data:image/jpeg;base64,`
      before it, `" style="max-width:100%;" />` after it (written in pieces so that proofs can
      take it apart). */
  const ImgOpen: string := "<img " + SrcPrefix
  /** The end of the tag after its leading `" s`: it starts at the 't' of `style` because the
      capture scan is taken apart at that 's' (no match of `src=` can start there). */
  const StyleTail: string := "tyle=\"max-width:100%;\" />"
  const ImgClose: string := "\"" + (" " + ("s" + StyleTail))
  /** What ends each line in the HTML. */
  const LineEnd: string := "<br/>"

  /** The `<img>` tag for one payload. */
  function ImgTag(payload: string): string {
    ImgOpen + payload + ImgClose
  }

  /** A character of the base64 alphabet, or the line break `Base64.DEFAULT` inserts. */
  predicate IsBase64Char(c: char) {
    ('A' <= c <= 'Z') || ('a' <= c <= 'z') || ('0' <= c <= '9') || c == '+' || c == '/' || c == '=' || c == '\n'
  }

  /** A payload as the editor produces it: base64 text, never empty. */
  predicate IsPayload(b: string) {
    |b| > 0 && forall i :: 0 <= i < |b| ==> IsBase64Char(b[i])
  }

  // ---------------------------------------------------------------------------------------------
  // Searching for one character

  /** The first index at or after `from` where `c` stands, or -1. */
  function Find(s: string, c: char, from: nat): (r: int)
    ensures r == -1 || (from <= r < |s| && s[r] == c)
    decreases |s| - from
  {
    if from >= |s| then -1 else if s[from] == c then from else Find(s, c, from + 1)
  }

  /** `Find` skips no occurrence. */
  lemma {:induction false} FindIsFirst(s: string, c: char, from: nat)
    ensures forall j :: from <= j < |s| && (Find(s, c, from) == -1 || j < Find(s, c, from)) ==> s[j] != c
    decreases |s| - from
  {
    if from < |s| && s[from] != c {
      FindIsFirst(s, c, from + 1);
    }
  }

  /** Anything with the defining property of the first occurrence is what `Find` returns. */
  lemma {:induction false} FindUnique(s: string, c: char, from: nat, r: nat)
    requires from <= r < |s| && s[r] == c
    requires forall j :: from <= j < r ==> s[j] != c
    ensures Find(s, c, from) == r
  {
    FindIsFirst(s, c, from);
  }

  /** `Find` in a concatenation, past the first part. */
  lemma {:induction false} FindAfter(a: string, c: char, x: string, from: nat)
    requires from <= |a| && forall j :: from <= j < |a| ==> a[j] != c
    requires c in x
    ensures Find(a + x, c, from) == |a| + Find(x, c, 0) && Find(x, c, 0) != -1
  {
    var k :| 0 <= k < |x| && x[k] == c;
    FindIsFirst(x, c, 0);
    var r := Find(x, c, 0);
    assert r != -1;
    FindUnique(a + x, c, from, |a| + r);
  }

  // ---------------------------------------------------------------------------------------------
  // HTML from text: getHtmlContent

  /** A character the regular expression "[IMG]" matches: the brackets make it the character
      class of 'I', 'M' and 'G', not the five-character marker. */
  predicate InMarkerClass(c: char) {
    c == 'I' || c == 'M' || c == 'G'
  }

  /** The index of the first character at or after `from` in that class, or -1. */
  function ClassIndex(s: string, from: nat): (r: int)
    ensures r == -1 || (from <= r < |s| && InMarkerClass(s[r]))
    decreases |s| - from
  {
    if from >= |s| then -1 else if InMarkerClass(s[from]) then from else ClassIndex(s, from + 1)
  }

  /** `ClassIndex` skips no character of the class, and -1 means there is none. */
  lemma {:induction false} ClassIndexIsFirst(s: string, from: nat)
    ensures forall j :: from <= j < |s| && (ClassIndex(s, from) == -1 || j < ClassIndex(s, from)) ==> !InMarkerClass(s[j])
    decreases |s| - from
  {
    if from < |s| && !InMarkerClass(s[from]) {
      ClassIndexIsFirst(s, from + 1);
    }
  }

  /** Anything with the defining property of the first class character is what `ClassIndex`
      returns. */
  lemma {:induction false} ClassIndexUnique(s: string, from: nat, r: nat)
    requires from <= r < |s| && InMarkerClass(s[r])
    requires forall j :: from <= j < r ==> !InMarkerClass(s[j])
    ensures ClassIndex(s, from) == r
  {
    ClassIndexIsFirst(s, from);
  }

  /** A literal marker holds an 'I', so where there is one the class matches. */
  lemma MarkerHasClass(s: string)
    requires Contains(s, Marker)
    ensures ClassIndex(s, 0) != -1
  {
    var i := IndexOf(s, Marker, 0);
    assert s[i + 1] == s[i..i + |Marker|][1] == 'I';
    ClassIndexIsFirst(s, 0);
  }

  /** `s.replaceFirst("[IMG]", rep)`: the first 'I', 'M' or 'G' becomes `rep`, and the text on
      either side of it is kept. (The replacement text would treat '$' and '\' specially; tags
      built from base64 payloads hold neither.) */
  function ReplaceFirstMatch(s: string, rep: string): (r: string)
    ensures ClassIndex(s, 0) == -1 ==> r == s
    ensures ClassIndex(s, 0) != -1 ==> |r| == |s| - 1 + |rep|
  {
    var i := ClassIndex(s, 0);
    if i == -1 then s else s[..i] + rep + s[i + 1..]
  }

  /** Where the text holds a class character, the result is the text in front of the first one,
      the replacement, and the text behind that character. */
  lemma ReplaceFirstMatchSplices(s: string, rep: string, i: int)
    requires i == ClassIndex(s, 0) && i != -1
    ensures var r := ReplaceFirstMatch(s, rep);
      r[..i] == s[..i] && r[i..i + |rep|] == rep && r[i + |rep|..] == s[i + 1..]
  {
    var r := ReplaceFirstMatch(s, rep);
    assert r == s[..i] + rep + s[i + 1..];
  }

  /** `s.replaceFirst(Pattern.quote("[IMG]"), rep)`: the first literal marker becomes `rep`,
      and the text on either side of it is kept. */
  function ReplaceFirstLiteral(s: string, rep: string): (r: string)
    ensures !Contains(s, Marker) ==> r == s
    ensures Contains(s, Marker) ==> |r| == |s| - |Marker| + |rep|
  {
    var i := IndexOf(s, Marker, 0);
    if i == -1 then s else s[..i] + rep + s[i + |Marker|..]
  }

  /** Where the text holds a marker, the result is the text in front of the first one, the
      replacement, and the text behind that marker. */
  lemma ReplaceFirstLiteralSplices(s: string, rep: string, i: int)
    requires i == IndexOf(s, Marker, 0) && i != -1
    ensures var r := ReplaceFirstLiteral(s, rep);
      r[..i] == s[..i] && r[i..i + |rep|] == rep && r[i + |rep|..] == s[i + |Marker|..]
  {
    var r := ReplaceFirstLiteral(s, rep);
    assert r == s[..i] + rep + s[i + |Marker|..];
  }

  /** Which replacement the inner loop applies: the regular expression the code passes
      (`Regex`), or the literal marker it evidently means (`Literal`). */
  datatype FirstReplace = Regex | Literal

  function ReplaceFirst(mode: FirstReplace, s: string, rep: string): string {
    match mode
    case Regex => ReplaceFirstMatch(s, rep)
    case Literal => ReplaceFirstLiteral(s, rep)
  }

  /** The total length of the tags of some payloads. */
  function TagsLength(ps: seq<string>): nat
    decreases |ps|
  {
    if |ps| == 0 then 0 else |ImgTag(ps[0])| + TagsLength(ps[1..])
  }

  lemma TagsLengthCons(images: seq<string>, k: nat, n: nat)
    requires k < n <= |images|
    ensures TagsLength(images[k..n]) == |ImgTag(images[k])| + TagsLength(images[k + 1..n])
  {
    assert images[k..n][1..] == images[k + 1..n];
  }

  /** The inner loop for one line: while the line literally contains the marker and payloads
      are left, the next payload's tag replaces the first match. Returns the line and the index
      of the next unused payload. */
  function ExpandLine(mode: FirstReplace, line: string, images: seq<string>, k: nat): (r: (string, nat))
    requires k <= |images|
    ensures k <= r.1 <= |images|
    ensures r.1 < |images| ==> !Contains(r.0, Marker)
    ensures !Contains(line, Marker) || k == |images| ==> r == (line, k)
    ensures Contains(line, Marker) && k < |images| ==> r.1 > k
    decreases |images| - k
  {
    if Contains(line, Marker) && k < |images| then
      ExpandLine(mode, ReplaceFirst(mode, line, ImgTag(images[k])), images, k + 1)
    else (line, k)
  }

  /** Each payload the inner loop uses replaces exactly one match: one class character with the
      regular expression, one five-character marker with the literal. */
  lemma {:induction false} ExpandLineLength(mode: FirstReplace, line: string, images: seq<string>, k: nat)
    requires k <= |images|
    ensures var r := ExpandLine(mode, line, images, k);
      mode == Regex ==> |r.0| + (r.1 - k) == |line| + TagsLength(images[k..r.1])
    ensures var r := ExpandLine(mode, line, images, k);
      mode == Literal ==> |r.0| + |Marker| * (r.1 - k) == |line| + TagsLength(images[k..r.1])
    decreases |images| - k
  {
    if Contains(line, Marker) && k < |images| {
      MarkerHasClass(line);
      var next := ReplaceFirst(mode, line, ImgTag(images[k]));
      ExpandLineLength(mode, next, images, k + 1);
      TagsLengthCons(images, k, ExpandLine(mode, next, images, k + 1).1);
    } else {
      assert images[k..k] == [];
    }
  }

  /** The outer loop over the lines from payload `k` on: each line starts with the payload
      where the previous one stopped. Returns the converted lines and the next unused payload. */
  function EncodeFrom(mode: FirstReplace, lines: seq<string>, images: seq<string>, k: nat): (r: (seq<string>, nat))
    requires k <= |images|
    ensures |r.0| == |lines| && k <= r.1 <= |images|
    ensures forall i :: 0 <= i < |lines| && !Contains(lines[i], Marker) ==> r.0[i] == lines[i]
    decreases |lines|
  {
    if |lines| == 0 then ([], k)
    else
      var first := ExpandLine(mode, lines[0], images, k);
      var rest := EncodeFrom(mode, lines[1..], images, first.1);
      ([first.0] + rest.0, rest.1)
  }

  /** The lines, each followed by `<br/>`. */
  function Terminated(ls: seq<string>): (r: string)
    ensures r == "" <==> |ls| == 0
    decreases |ls|
  {
    if |ls| == 0 then "" else ls[0] + LineEnd + Terminated(ls[1..])
  }

  /** The lines, each followed by '\n': what a terminated text decodes to. */
  function EachLine(ls: seq<string>): string
    decreases |ls|
  {
    if |ls| == 0 then "" else ls[0] + "\n" + EachLine(ls[1..])
  }

  /** What `getHtmlContent()` returns for the editor text and payload list: empty exactly when
      the text splits into no lines. */
  function Encode(text: string, images: seq<string>): (r: string)
    ensures r == "" <==> |SplitLines(text)| == 0
  {
    Terminated(EncodeFrom(Regex, SplitLines(text), images, 0).0)
  }

  /** The same with the marker replaced literally. */
  function EncodeFixed(text: string, images: seq<string>): (r: string)
    ensures r == "" <==> |SplitLines(text)| == 0
  {
    Terminated(EncodeFrom(Literal, SplitLines(text), images, 0).0)
  }

  // ---------------------------------------------------------------------------------------------
  // Text from HTML: setHtmlContent

  /** `s.replaceAll(open + "[^>]*>", rep)` for a literal `open`: scanning from the left, where
      `open` starts and a '>' follows somewhere after it, everything up to and including the
      first such '>' becomes `rep`; any other character is copied. */
  function ReplaceTags(s: string, open: string, rep: string): (r: string)
    requires |open| > 0
    decreases |s|
  {
    if |s| == 0 then ""
    else if PrefixAt(s, 0, open) && Find(s, '>', |open|) != -1 then
      rep + ReplaceTags(s[Find(s, '>', |open|) + 1..], open, rep)
    else [s[0]] + ReplaceTags(s[1..], open, rep)
  }

  /** Characters that cannot start the tag are copied. */
  lemma {:induction false} TagsSkip(a: string, c: string, open: string, rep: string)
    requires |open| > 0 && open[0] !in a
    ensures ReplaceTags(a + c, open, rep) == a + ReplaceTags(c, open, rep)
    decreases |a|
  {
    if |a| == 0 {
      assert a + c == c;
    } else {
      var s := a + c;
      assert !PrefixAt(s, 0, open) by {
        if |open| <= |s| {
          assert s[0..|open|][0] == s[0];
        }
      }
      DropFirst(a, c);
      TagsSkip(a[1..], c, open, rep);
    }
  }

  /** Without the tag's first character there is nothing to replace. */
  lemma TagsAbsent(s: string, open: string, rep: string)
    requires |open| > 0 && open[0] !in s
    ensures ReplaceTags(s, open, rep) == s
  {
    TagsSkip(s, "", open, rep);
    assert s + "" == s;
  }

  /** Where a match of `src="data:image/jpeg;base64,([^"]+)"` that starts at the beginning of `s`
      has its closing quote: the literal prefix, at least one character other than '"', then
      '"'. -1 when no match starts there. */
  function CaptureEnd(s: string): (e: int)
    ensures e == -1 || (|SrcPrefix| < e < |s| && PrefixAt(s, 0, SrcPrefix) && s[e] == '"')
  {
    if PrefixAt(s, 0, SrcPrefix) && Find(s, '"', |SrcPrefix|) > |SrcPrefix| then Find(s, '"', |SrcPrefix|)
    else -1
  }

  /** The groups `matcher.find()` yields over `s`, one after the other; after a match the search
      resumes behind its closing quote. */
  function Captures(s: string): (r: seq<string>)
    ensures forall k :: 0 <= k < |r| ==> |r[k]| > 0
    decreases |s|
  {
    if |s| == 0 then []
    else
      var e := CaptureEnd(s);
      if e == -1 then Captures(s[1..]) else [s[|SrcPrefix|..e]] + Captures(s[e + 1..])
  }

  /** The replacement chain `setHtmlContent` applies to the HTML, in its order: image tags back
      to markers, then the rest of the chain. HTML without '<' only has its entities replaced. */
  function DecodeText(html: string): (r: string)
    ensures '<' !in html ==> r == Entities(html)
  {
    var r := Unescape(ReplaceTags(html, "<img", Marker));
    if '<' in html then r
    else
      TagsAbsent(html, "<img", Marker);
      r
  }

  /** The chain after the image tags: both spellings of the line break to '\n', every other
      tag removed, then the five entities, `&amp;` first. Without '<' there is no break and no
      tag, and only the entities are replaced. */
  function Unescape(s: string): (r: string)
    ensures '<' !in s ==> r == Entities(s)
  {
    var withBreaks := ReplaceLiteral(ReplaceLiteral(s, "<br/>", "\n"), "<br>", "\n");
    var r := Entities(ReplaceTags(withBreaks, "<", ""));
    if '<' in s then r
    else
      ReplaceLiteralAbsent(s, "<br/>", "\n");
      ReplaceLiteralAbsent(s, "<br>", "\n");
      TagsAbsent(s, "<", "");
      r
  }

  /** The five entity replacements, in the order the chain applies them. Text without '&'
      holds no entity and is kept. */
  function Entities(s: string): (r: string)
    ensures '&' !in s ==> r == s
  {
    var amp := ReplaceLiteral(s, "&amp;", "&");
    var lt := ReplaceLiteral(amp, "&lt;", "<");
    var gt := ReplaceLiteral(lt, "&gt;", ">");
    var quot := ReplaceLiteral(gt, "&quot;", "\"");
    var r := ReplaceLiteral(quot, "&#39;", "'");
    if '&' in s then r
    else
      ReplaceLiteralAbsent(s, "&amp;", "&");
      ReplaceLiteralAbsent(s, "&lt;", "<");
      ReplaceLiteralAbsent(s, "&gt;", ">");
      ReplaceLiteralAbsent(s, "&quot;", "\"");
      ReplaceLiteralAbsent(s, "&#39;", "'");
      r
  }

  // ---------------------------------------------------------------------------------------------
  // Pairing markers with payloads: replaceMarkersWithImages

  /** The positions of the marker in `text` at or after `from`, in the order `indexOf` visits
      them (each search starts one past the previous hit, so overlapping hits would count).
      Every position visited holds a marker. */
  function MarkersFrom(text: string, from: nat): (r: seq<nat>)
    ensures forall k :: 0 <= k < |r| ==> from <= r[k] && PrefixAt(text, r[k], Marker)
    decreases |text| - from
  {
    var i := IndexOf(text, Marker, from);
    if i == -1 then [] else [i] + MarkersFrom(text, i + 1)
  }

  /** The walk visits the markers in increasing order. */
  lemma {:induction false} MarkersSound(text: string, from: nat)
    ensures forall k :: 0 < k < |MarkersFrom(text, from)| ==>
      MarkersFrom(text, from)[k - 1] < MarkersFrom(text, from)[k]
    decreases |text| - from
  {
    var i := IndexOf(text, Marker, from);
    if i != -1 {
      var rest := MarkersFrom(text, i + 1);
      MarkersSound(text, i + 1);
      var r := MarkersFrom(text, from);
      assert r == [i] + rest;
      forall k | 0 < k < |r|
        ensures r[k - 1] < r[k]
      {
        assert r[k] == rest[k - 1];
        if k > 1 {
          assert r[k - 1] == rest[k - 2];
        } else {
          assert r[0] == i && i + 1 <= rest[0];
        }
      }
    }
  }

  /** How many payloads, from the first, decode to a bitmap: the pairing stops at the first
      payload that does not (it is retried, and fails, at every later marker). */
  function DecodablePrefix(images: seq<string>, decodes: string -> bool): (n: nat)
    ensures n <= |images|
    ensures forall k :: 0 <= k < n ==> decodes(images[k])
    ensures n < |images| ==> !decodes(images[n])
  {
    if |images| == 0 || !decodes(images[0]) then 0 else 1 + DecodablePrefix(images[1..], decodes)
  }

  /** An image span: the marker at `start` shows payload `image`. */
  datatype Span = Span(start: nat, image: nat)

  function Min(a: nat, b: nat): nat {
    if a <= b then a else b
  }

  /** The spans `replaceMarkersWithImages` sets: the k-th marker shows the k-th payload, for as
      many markers as there are and as payloads decode in a row. */
  function Pairing(text: string, images: seq<string>, decodes: string -> bool): (r: seq<Span>)
    ensures |r| <= |images| && |r| <= |MarkersFrom(text, 0)|
    ensures forall k :: 0 <= k < |r| ==> r[k].image == k && decodes(images[k])
    ensures forall k :: 0 <= k < |r| ==> r[k].start == MarkersFrom(text, 0)[k] && PrefixAt(text, r[k].start, Marker)
    ensures forall k :: 0 < k < |r| ==> r[k - 1].start < r[k].start
  {
    MarkersSound(text, 0);
    var ms := MarkersFrom(text, 0);
    var n := Min(|ms|, DecodablePrefix(images, decodes));
    seq(n, k requires 0 <= k < n => Span(ms[k], k))
  }

  /** The text after `insertImage` put a marker at `cursor`: a line break first unless the cursor
      is at the very start or the text is empty, then the marker and a line break. */
  function Inserted(text: string, cursor: nat): (r: string)
    requires cursor <= |text|
    ensures |r| == |text| + |Marker| + 1 + (if cursor > 0 && |text| > 0 then 1 else 0)
    ensures r[..cursor] == text[..cursor] && r[|r| - (|text| - cursor)..] == text[cursor..]
  {
    var lead := if cursor > 0 && |text| > 0 then "\n" else "";
    text[..cursor] + lead + Marker + "\n" + text[cursor..]
  }

  /** The inserted marker stands on a line of its own: right after the cursor (and the line
      break put before it, if any), followed by a line break. */
  lemma InsertedMarker(text: string, cursor: nat)
    requires cursor <= |text|
    ensures var at := cursor + (if cursor > 0 && |text| > 0 then 1 else 0);
      PrefixAt(Inserted(text, cursor), at, Marker + "\n")
      && (at == 0 || Inserted(text, cursor)[at - 1] == '\n')
  {
    var lead := if cursor > 0 && |text| > 0 then "\n" else "";
    var r := Inserted(text, cursor);
    var at := cursor + |lead|;
    assert r == (text[..cursor] + lead) + (Marker + "\n") + text[cursor..];
    assert r[at..at + |Marker| + 1] == Marker + "\n";
  }

  /** The loops of `getHtmlContent`, over the lines and, inside a line with a marker, over the
      payloads. */
  method EncodeText(text: string, images: seq<string>) returns (html: string)
    ensures html == Encode(text, images)
  {
    html := EncodeLineLoop(SplitLines(text), images);
  }

  /** The outer loop over the lines. */
  method EncodeLineLoop(lines: seq<string>, images: seq<string>) returns (html: string)
    ensures html == Terminated(EncodeFrom(Regex, lines, images, 0).0)
  {
    ghost var goal := Terminated(EncodeFrom(Regex, lines, images, 0).0);
    html := "";
    var imageIndex: nat := 0;
    var i := 0;
    assert lines[0..] == lines;
    while i < |lines|
      invariant 0 <= i <= |lines| && imageIndex <= |images|
      invariant html + Terminated(EncodeFrom(Regex, lines[i..], images, imageIndex).0) == goal
    {
      var expanded, next := ExpandMarkers(lines[i], images, imageIndex);
      EncodeAdvance(html, lines, i, images, imageIndex);
      html := html + expanded + LineEnd;
      imageIndex := next;
      i := i + 1;
    }
    assert lines[i..] == [];
  }

  /** One step of the outer loop, with the HTML built so far in front. */
  lemma EncodeAdvance(html: string, lines: seq<string>, i: nat, images: seq<string>, k: nat)
    requires i < |lines| && k <= |images|
    ensures var first := ExpandLine(Regex, lines[i], images, k);
      html + first.0 + LineEnd + Terminated(EncodeFrom(Regex, lines[i + 1..], images, first.1).0)
        == html + Terminated(EncodeFrom(Regex, lines[i..], images, k).0)
  {
    var first := ExpandLine(Regex, lines[i], images, k);
    var tail := Terminated(EncodeFrom(Regex, lines[i + 1..], images, first.1).0);
    EncodeStep(lines, i, images, k);
    Regroup(html, first.0, LineEnd, tail);
    Assoc(first.0, LineEnd, tail);
  }

  /** One step of the outer loop. */
  lemma EncodeStep(lines: seq<string>, i: nat, images: seq<string>, k: nat)
    requires i < |lines| && k <= |images|
    ensures var first := ExpandLine(Regex, lines[i], images, k);
      Terminated(EncodeFrom(Regex, lines[i..], images, k).0)
        == first.0 + LineEnd + Terminated(EncodeFrom(Regex, lines[i + 1..], images, first.1).0)
  {
    assert lines[i..][1..] == lines[i + 1..];
    TerminatedHead(Regex, lines[i..], images, k);
  }

  /** The encoded lines: the first line's conversion and break, then the rest from where it
      stopped. */
  lemma TerminatedHead(mode: FirstReplace, lines: seq<string>, images: seq<string>, k: nat)
    requires |lines| > 0 && k <= |images|
    ensures var first := ExpandLine(mode, lines[0], images, k);
      Terminated(EncodeFrom(mode, lines, images, k).0)
        == first.0 + LineEnd + Terminated(EncodeFrom(mode, lines[1..], images, first.1).0)
      && EncodeFrom(mode, lines, images, k).1 == EncodeFrom(mode, lines[1..], images, first.1).1
  {
    var first := ExpandLine(mode, lines[0], images, k);
    var rest := EncodeFrom(mode, lines[1..], images, first.1).0;
    assert ([first.0] + rest)[1..] == rest;
  }

  /** The inner loop of `getHtmlContent` for one line, from payload `k` on. */
  method ExpandMarkers(line: string, images: seq<string>, k: nat) returns (current: string, imageIndex: nat)
    requires k <= |images|
    ensures (current, imageIndex) == ExpandLine(Regex, line, images, k)
  {
    current := line;
    imageIndex := k;
    while Contains(current, Marker) && imageIndex < |images|
      invariant k <= imageIndex <= |images|
      invariant ExpandLine(Regex, current, images, imageIndex) == ExpandLine(Regex, line, images, k)
      decreases |images| - imageIndex
    {
      var tag := ImgTag(images[imageIndex]);
      current := ReplaceFirstMatch(current, tag);
      imageIndex := imageIndex + 1;
    }
  }

  /** The `while (matcher.find())` loop of `setHtmlContent`, collecting each group in order. */
  method CollectCaptures(h: string) returns (found: seq<string>)
    ensures found == Captures(h)
  {
    ghost var goal := Captures(h);
    found := [];
    var rest := h;
    while |rest| > 0
      invariant found + Captures(rest) == goal
      decreases |rest|
    {
      var e := CaptureEnd(rest);
      if e == -1 {
        CaptureSkip(found, rest);
        rest := rest[1..];
      } else {
        CaptureTake(found, rest);
        found := found + [rest[|SrcPrefix|..e]];
        rest := rest[e + 1..];
      }
    }
    assert found + [] == found;
  }

  /** A step of the scan where no match starts at the front of `rest`. */
  lemma CaptureSkip(found: seq<string>, rest: string)
    requires |rest| > 0 && CaptureEnd(rest) == -1
    ensures found + Captures(rest) == found + Captures(rest[1..])
  {
  }

  /** A step of the scan where a match starts at the front of `rest`: its payload is found, and
      the scan resumes after the closing quote. */
  lemma CaptureTake(found: seq<string>, rest: string)
    requires |rest| > 0 && CaptureEnd(rest) != -1
    ensures |SrcPrefix| < CaptureEnd(rest) < |rest|
    ensures found + Captures(rest)
      == found + [rest[|SrcPrefix|..CaptureEnd(rest)]] + Captures(rest[CaptureEnd(rest) + 1..])
  {
    Assoc(found, [rest[|SrcPrefix|..CaptureEnd(rest)]], Captures(rest[CaptureEnd(rest) + 1..]));
  }

  /** The loop of `replaceMarkersWithImages`: walks the markers with `indexOf`, giving each the
      next payload when that payload decodes, until markers or payloads run out. */
  method PairMarkers(text: string, images: seq<string>, decodes: string -> bool) returns (built: seq<Span>)
    ensures built == Pairing(text, images, decodes)
  {
    ghost var goal := PairRest(MarkersFrom(text, 0), images, decodes, 0);
    var markerIndex := IndexOf(text, Marker, 0);
    var imageCount := 0;
    built := [];
    var from: nat := 0;
    while markerIndex != -1 && imageCount < |images|
      invariant markerIndex == IndexOf(text, Marker, from)
      invariant built + PairRest(MarkersFrom(text, from), images, decodes, imageCount) == goal
      decreases |text| - from
    {
      PairRestStep(built, text, images, decodes, from, imageCount);
      ghost var before := built + PairRest(MarkersFrom(text, from), images, decodes, imageCount);
      if decodes(images[imageCount]) {
        built := built + [Span(markerIndex, imageCount)];
        imageCount := imageCount + 1;
      }
      from := markerIndex + 1;
      assert built + PairRest(MarkersFrom(text, from), images, decodes, imageCount) == before;
      markerIndex := IndexOf(text, Marker, from);
    }
    assert PairRest(MarkersFrom(text, from), images, decodes, imageCount) == [];
    assert built + [] == built;
    PairRestIsPairing(text, images, decodes);
  }

  /** The spans the walk still sets over the markers `ms` it has yet to visit, with payload
      `count` next. */
  function PairRest(ms: seq<nat>, images: seq<string>, decodes: string -> bool, count: nat): seq<Span>
    decreases |ms|
  {
    if |ms| == 0 || count >= |images| then []
    else if decodes(images[count]) then [Span(ms[0], count)] + PairRest(ms[1..], images, decodes, count + 1)
    else PairRest(ms[1..], images, decodes, count)
  }

  /** One pass of the walk, with the spans set so far in front. */
  lemma PairRestStep(built: seq<Span>, text: string, images: seq<string>, decodes: string -> bool, from: nat, count: nat)
    requires IndexOf(text, Marker, from) != -1 && count < |images|
    ensures var m := IndexOf(text, Marker, from);
      from <= m < |text| &&
      if decodes(images[count]) then
        built + PairRest(MarkersFrom(text, from), images, decodes, count)
          == built + [Span(m, count)] + PairRest(MarkersFrom(text, m + 1), images, decodes, count + 1)
      else
        built + PairRest(MarkersFrom(text, from), images, decodes, count)
          == built + PairRest(MarkersFrom(text, m + 1), images, decodes, count)
  {
    var m := IndexOf(text, Marker, from);
    assert PrefixAt(text, m, Marker);
    var ms := MarkersFrom(text, from);
    assert ms == [m] + MarkersFrom(text, m + 1);
    assert ms[1..] == MarkersFrom(text, m + 1);
    if decodes(images[count]) {
      Assoc(built, [Span(m, count)], PairRest(MarkersFrom(text, m + 1), images, decodes, count + 1));
    }
  }

  /** The first `n` markers of `ms`, paired with the payloads from `count` on. */
  function PairedFrom(ms: seq<nat>, count: nat, n: nat): (r: seq<Span>)
    requires n <= |ms|
    ensures |r| == n && forall j :: 0 <= j < n ==> r[j] == Span(ms[j], count + j)
  {
    seq(n, j requires 0 <= j < n => Span(ms[j], count + j))
  }

  /** A span in front of the pairing from the next payload on is the pairing one marker earlier. */
  lemma PairedCons(m: nat, ms: seq<nat>, count: nat, n: nat)
    requires n <= |ms|
    ensures [Span(m, count)] + PairedFrom(ms, count + 1, n) == PairedFrom([m] + ms, count, n + 1)
  {
    var lhs := [Span(m, count)] + PairedFrom(ms, count + 1, n);
    var rhs := PairedFrom([m] + ms, count, n + 1);
    forall j | 0 <= j < n + 1
      ensures lhs[j] == rhs[j]
    {
      if j > 0 {
        assert ([m] + ms)[j] == ms[j - 1];
      }
    }
  }

  /** The payload at `c` decodes exactly when the run of decodable payloads goes past it. */
  lemma DecodableAt(images: seq<string>, decodes: string -> bool, c: nat)
    requires c < |images| && c <= DecodablePrefix(images, decodes)
    ensures decodes(images[c]) <==> c < DecodablePrefix(images, decodes)
  {
  }

  /** While the payloads from the first still decode, the walk pairs the markers left with the
      payloads from `count` on, until either runs out; a payload that does not decode stops the
      pairing for good. */
  lemma {:induction false} PairRestClosed(ms: seq<nat>, images: seq<string>, decodes: string -> bool, count: nat)
    requires count <= DecodablePrefix(images, decodes)
    ensures PairRest(ms, images, decodes, count)
      == PairedFrom(ms, count, Min(|ms|, DecodablePrefix(images, decodes) - count))
    decreases |ms|
  {
    var p := DecodablePrefix(images, decodes);
    if |ms| > 0 && count < |images| {
      DecodableAt(images, decodes, count);
      assert [ms[0]] + ms[1..] == ms;
      if decodes(images[count]) {
        PairRestClosed(ms[1..], images, decodes, count + 1);
        var n' := Min(|ms| - 1, p - (count + 1));
        assert Min(|ms|, p - count) == n' + 1;
        PairedCons(ms[0], ms[1..], count, n');
      } else {
        PairRestClosed(ms[1..], images, decodes, count);
      }
    }
  }

  /** The walk from the start sets exactly the pairing. */
  lemma PairRestIsPairing(text: string, images: seq<string>, decodes: string -> bool)
    ensures PairRest(MarkersFrom(text, 0), images, decodes, 0) == Pairing(text, images, decodes)
  {
    PairRestClosed(MarkersFrom(text, 0), images, decodes, 0);
  }

  /** The editor. `text` is the editable content, `images` the payload list, `spans` the image
      spans on the text. */
  class ImageEditText {
    var text: string
    var images: seq<string>
    var spans: seq<Span>

    constructor ()
      ensures text == "" && images == [] && spans == []
    {
      text := "";
      images := [];
      spans := [];
    }

    /** `getHtmlContent()`. */
    method GetHtmlContent() returns (html: string)
      ensures html == Encode(text, images)
    {
      html := EncodeText(text, images);
    }

    /** `setHtmlContent(html)`: the list and the text are cleared; for a null or empty `html`
        that is all. Otherwise every payload the pattern finds is collected in order and the text
        becomes the decoded HTML, without spans (the delayed pairing is not modelled). */
    method SetHtmlContent(html: JString)
      modifies this
      ensures html.None? || html.value == "" ==> text == "" && images == [] && spans == []
      ensures html.Some? && html.value != "" ==> images == Captures(html.value) && text == DecodeText(html.value)
      ensures spans == []
    {
      images := [];
      text := "";
      spans := [];
      if html.None? || html.value == "" {
        return;
      }
      var h := html.value;
      images := CollectCaptures(h);
      text := DecodeText(h);
    }

    /** `replaceMarkersWithImages()`; `decodes` says which payloads decode to a bitmap. The text
        itself is set again unchanged, with the new spans. */
    method ReplaceMarkersWithImages(decodes: string -> bool)
      modifies this
      ensures text == old(text) && images == old(images)
      ensures spans == Pairing(text, images, decodes)
    {
      spans := PairMarkers(text, images, decodes);
    }

    /** `insertImage(uri)`. `payload` is the base64 text of the picked image, or `None` when it
        could not be read as a bitmap; `cursor` is the selection start. A payload is always
        appended once read; a cursor outside the text makes the insertion throw, which is
        caught, so the text then stays as it was. */
    method InsertImage(cursor: int, payload: Option<string>, decodes: string -> bool)
      modifies this
      ensures payload.None? ==> text == old(text) && images == old(images) && spans == old(spans)
      ensures payload.Some? ==> images == old(images) + [payload.value]
      ensures payload.Some? && 0 <= cursor <= |old(text)| ==>
        text == Inserted(old(text), cursor) && spans == Pairing(text, images, decodes)
      ensures payload.Some? && !(0 <= cursor <= |old(text)|) ==> text == old(text) && spans == old(spans)
    {
      if payload.None? {
        return;
      }
      images := images + [payload.value];
      if cursor < 0 || cursor > |text| {
        return;
      }
      var pos := cursor;
      if pos > 0 && |text| > 0 {
        text := text[..pos] + "\n" + text[pos..];
        pos := pos + 1;
      }
      text := text[..pos] + Marker + "\n" + text[pos..];
      assert text == Inserted(old(text), cursor);
      ReplaceMarkersWithImages(decodes);
    }
  }
}
