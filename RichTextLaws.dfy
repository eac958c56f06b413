/** What the editor's HTML conversion does, proved about the functions of `RichText`: the shape
    of the encoding, the captures and the decoded text, the counterexample to the round trip that
    the regular-expression marker causes, and the round trip with the marker taken literally. */
module RichTextLaws {
  import opened Strings
  import opened RichText

  // ---------------------------------------------------------------------------------------------
  // Scanning for tags

  /** A payload holds no character outside the base64 alphabet. */
  lemma PayloadLacks(b: string, c: char)
    requires IsPayload(b) && !IsBase64Char(c)
    ensures c !in b
  {
  }

  /** Facts about the characters of an image tag. */
  lemma TagChars(b: string)
    requires IsPayload(b)
    ensures ImgTag(b)[0] == '<' && '[' !in ImgTag(b)
  {
    var t := ImgTag(b);
    assert t[0] == ImgOpen[0];
    OpenLacksBracket();
    CloseLacksBracket();
    forall i | 0 <= i < |t|
      ensures t[i] != '['
    {
      if i < |ImgOpen| {
        assert t[i] == ImgOpen[i];
      } else if i < |ImgOpen| + |b| {
        assert t[i] == b[i - |ImgOpen|];
        assert IsBase64Char(b[i - |ImgOpen|]);
      } else {
        assert t[i] == ImgClose[i - |ImgOpen| - |b|];
      }
    }
  }

  lemma OpenLacksBracket()
    ensures forall i :: 0 <= i < |ImgOpen| ==> ImgOpen[i] != '['
  {
  }

  lemma CloseLacksBracket()
    ensures forall i :: 0 <= i < |ImgClose| ==> ImgClose[i] != '['
  {
  }

  /** An image tag is replaced as one piece: by a marker in the editor, by the placeholder word
      in the list preview. */
  lemma TagsOfImage(b: string, c: string, rep: string)
    requires IsPayload(b)
    ensures ReplaceTags(ImgTag(b) + c, "<img", rep) == rep + ReplaceTags(c, "<img", rep)
  {
    var s := ImgTag(b) + c;
    var a := ImgOpen + b + ImgClose[..|ImgClose| - 1];
    assert ImgClose == ImgClose[..|ImgClose| - 1] + ">";
    assert s == a + (">" + c);
    assert PrefixAt(s, 0, "<img") by {
      assert s[0..4] == ImgOpen[0..4];
    }
    forall j | 4 <= j < |a|
      ensures a[j] != '>'
    {
      if j < |ImgOpen| {
        assert a[j] == ImgOpen[j];
      } else if j < |ImgOpen| + |b| {
        assert a[j] == b[j - |ImgOpen|];
        assert IsBase64Char(b[j - |ImgOpen|]);
      } else {
        assert a[j] == ImgClose[..|ImgClose| - 1][j - |ImgOpen| - |b|];
      }
    }
    FindAfter(a, '>', ">" + c, 4);
    assert s[|a| + 1..] == c;
  }

  /** A line break is not an image tag. */
  lemma TagsOfLineEnd(c: string)
    ensures ReplaceTags(LineEnd + c, "<img", Marker) == LineEnd + ReplaceTags(c, "<img", Marker)
  {
    var s := LineEnd + c;
    assert !PrefixAt(s, 0, "<img") by {
      assert s[0..4][1] == 'b';
    }
    assert s[1..] == "br/>" + c;
    TagsSkip("br/>", c, "<img", Marker);
  }

  // ---------------------------------------------------------------------------------------------
  // Scanning for captures

  /** Where no 's' stands, no match starts. */
  lemma {:induction false} CapturesNoS(a: string, c: string)
    requires 's' !in a
    ensures Captures(a + c) == Captures(c)
    decreases |a|
  {
    if |a| == 0 {
      assert a + c == c;
    } else {
      var s := a + c;
      assert !PrefixAt(s, 0, SrcPrefix) by {
        if |SrcPrefix| <= |s| {
          assert s[0..|SrcPrefix|][0] == s[0];
        }
      }
      DropFirst(a, c);
      CapturesNoS(a[1..], c);
    }
  }

  /** Text without a quote, followed by a tag or by nothing, yields no capture. */
  lemma {:induction false} CapturesNoQuote(a: string, c: string)
    requires '"' !in a && (c == "" || c[0] == '<')
    ensures Captures(a + c) == Captures(c)
    decreases |a|
  {
    if |a| == 0 {
      assert a + c == c;
    } else {
      var s := a + c;
      assert SrcPrefix[..5] == "src=\"";
      assert !PrefixAt(s, 0, SrcPrefix) by {
        if |SrcPrefix| <= |s| {
          if |a| > 4 {
            assert s[0..|SrcPrefix|][4] == a[4] != SrcPrefix[4];
          } else {
            assert s[0..|SrcPrefix|][|a|] == c[0] != SrcPrefix[|a|];
          }
        }
      }
      DropFirst(a, c);
      CapturesNoQuote(a[1..], c);
    }
  }

  /** A match: the prefix, a group without quotes, the closing quote. */
  lemma CapturesMatch(b: string, y: string)
    requires |b| > 0 && '"' !in b
    ensures Captures(SrcPrefix + b + "\"" + y) == [b] + Captures(y)
  {
    var a := SrcPrefix + b;
    var s := a + ("\"" + y);
    assert s == SrcPrefix + b + "\"" + y;
    MatchEnd(a, b, y);
    assert s[|SrcPrefix|..|a|] == b && s[|a| + 1..] == y;
  }

  lemma MatchEnd(a: string, b: string, y: string)
    requires |b| > 0 && '"' !in b && a == SrcPrefix + b
    ensures CaptureEnd(a + ("\"" + y)) == |a|
  {
    var s := a + ("\"" + y);
    assert PrefixAt(s, 0, SrcPrefix) by {
      assert s[0..|SrcPrefix|] == SrcPrefix;
    }
    assert forall j :: |SrcPrefix| <= j < |a| ==> a[j] != '"' by {
      forall j | |SrcPrefix| <= j < |a|
        ensures a[j] != '"'
      {
        assert a[j] == b[j - |SrcPrefix|];
      }
    }
    FindAfter(a, '"', "\"" + y, |SrcPrefix|);
  }

  /** The end of a tag yields no capture. */
  lemma CapturesAfterClose(c: string)
    ensures Captures(ImgClose[1..] + c) == Captures(c)
  {
    var t := StyleTail;
    var s := "s" + (t + c);
    assert ImgClose[1..] == " " + ("s" + t);
    assert ImgClose[1..] + c == " " + s;
    CapturesNoS(" ", s);
    assert 's' !in t && t[0] == 't';
    NoMatchAtS(s);
    CapturesSkipOne(s);
    assert s[1..] == t + c;
    CapturesNoS(t, c);
  }

  /** Where no match starts, the search moves on by one character. */
  lemma CapturesSkipOne(s: string)
    requires |s| > 0 && CaptureEnd(s) == -1
    ensures Captures(s) == Captures(s[1..])
  {
  }

  /** Where the second character is 't', the prefix "src=" cannot start. */
  lemma NoMatchAtS(s: string)
    requires |s| >= 2 && s[1] == 't'
    ensures CaptureEnd(s) == -1
  {
    assert SrcPrefix[1] == 'r';
    assert !PrefixAt(s, 0, SrcPrefix);
  }

  /** An image tag yields its payload. */
  lemma CapturesOfImage(b: string, c: string)
    requires IsPayload(b)
    ensures Captures(ImgTag(b) + c) == [b] + Captures(c)
  {
    var y := ImgClose[1..] + c;
    assert ImgTag(b) + c == "<img " + (SrcPrefix + b + "\"" + y);
    CapturesNoS("<img ", SrcPrefix + b + "\"" + y);
    PayloadLacks(b, '"');
    CapturesMatch(b, y);
    CapturesAfterClose(c);
  }

  // ---------------------------------------------------------------------------------------------
  // The inner loop with the marker taken literally

  /** Only the text behind a marker-free prefix that ends in a tag is searched and changed. */
  lemma {:induction false} ExpandShift(a: string, t: string, x: string, images: seq<string>, j: nat)
    requires j <= |images| && IndexOf(a, Marker, 0) == -1
    requires |t| > 0 && t[0] == '<' && '[' !in t
    ensures ExpandLine(Literal, a + t + x, images, j)
      == (a + t + ExpandLine(Literal, x, images, j).0, ExpandLine(Literal, x, images, j).1)
    decreases |images| - j
  {
    assert '<' !in Marker;
    var q := a + t;
    IndexPastPiece(a, t, x, Marker);
    if Contains(x, Marker) && j < |images| {
      var tag := ImgTag(images[j]);
      var ix := IndexOf(x, Marker, 0);
      var x' := ReplaceFirstLiteral(x, tag);
      assert x' == x[..ix] + tag + x[ix + |Marker|..];
      assert IndexOf(q + x, Marker, 0) == |q| + ix;
      assert ReplaceFirstLiteral(q + x, tag) == q + x' by {
        SpliceShift(q, x, ix, |Marker|, tag);
      }
      assert ExpandLine(Literal, q + x, images, j) == ExpandLine(Literal, q + x', images, j + 1);
      assert ExpandLine(Literal, x, images, j) == ExpandLine(Literal, x', images, j + 1);
      ExpandShift(a, t, x', images, j + 1);
    } else {
      assert ExpandLine(Literal, q + x, images, j) == (q + x, j);
    }
  }

  /** The first step of the literal inner loop: the text before the first marker, the tag, and
      the rest of the line converted from the next payload on. */
  lemma ExpandSplit(l: string, images: seq<string>, k: nat)
    requires k < |images| && Contains(l, Marker) && IsPayload(images[k])
    ensures var i := IndexOf(l, Marker, 0);
      var rest := ExpandLine(Literal, l[i + |Marker|..], images, k + 1);
      0 <= i && i + |Marker| <= |l| && l == l[..i] + Marker + l[i + |Marker|..]
      && ExpandLine(Literal, l, images, k) == (l[..i] + ImgTag(images[k]) + rest.0, rest.1)
  {
    var i := IndexOf(l, Marker, 0);
    FirstSplit(l, Marker);
    TagChars(images[k]);
    ExpandShift(l[..i], ImgTag(images[k]), l[i + |Marker|..], images, k + 1);
  }

  /** The payloads from index `k` on are base64 text. */
  ghost predicate PayloadsFrom(images: seq<string>, k: nat) {
    forall j :: k <= j < |images| ==> IsPayload(images[j])
  }

  /** A line converted with the literal marker gives its markers back when its tags are
      replaced. */
  lemma {:induction false} ExpandTags(l: string, images: seq<string>, k: nat, c: string)
    requires k <= |images| && '<' !in l && PayloadsFrom(images, k)
    ensures ReplaceTags(ExpandLine(Literal, l, images, k).0 + c, "<img", Marker)
      == l + ReplaceTags(c, "<img", Marker)
    decreases |images| - k
  {
    if Contains(l, Marker) && k < |images| {
      var i := IndexOf(l, Marker, 0);
      ExpandSplit(l, images, k);
      var rest := l[i + |Marker|..];
      PiecesLack(l, i, i + |Marker|, '<');
      ExpandTags(rest, images, k + 1, c);
      TagsOfSplice(l, l[..i], rest, images[k], ExpandLine(Literal, rest, images, k + 1).0, c,
                   ExpandLine(Literal, l, images, k).0);
    } else {
      TagsSkip(l, c, "<img", Marker);
    }
  }

  /** A line split at a marker, converted to the text before it, the tag and the converted rest,
      has its marker back once its tags are replaced. */
  lemma TagsOfSplice(l: string, before: string, rest: string, b: string, e: string, c: string, converted: string)
    requires l == before + Marker + rest && converted == before + ImgTag(b) + e
    requires '<' !in before && IsPayload(b)
    requires ReplaceTags(e + c, "<img", Marker) == rest + ReplaceTags(c, "<img", Marker)
    ensures ReplaceTags(converted + c, "<img", Marker) == l + ReplaceTags(c, "<img", Marker)
  {
    Regroup(before, ImgTag(b), e, c);
    TagsSkip(before, ImgTag(b) + (e + c), "<img", Marker);
    TagsOfImage(b, e + c, Marker);
    Regroup(before, Marker, rest, ReplaceTags(c, "<img", Marker));
  }

  /** A line converted with the literal marker yields, in order, the payloads it used. */
  lemma {:induction false} ExpandCaptures(l: string, images: seq<string>, k: nat, c: string)
    requires k <= |images| && '"' !in l && PayloadsFrom(images, k)
    requires c == "" || c[0] == '<'
    ensures var r := ExpandLine(Literal, l, images, k);
      Captures(r.0 + c) == images[k..r.1] + Captures(c)
    decreases |images| - k
  {
    if Contains(l, Marker) && k < |images| {
      var i := IndexOf(l, Marker, 0);
      ExpandSplit(l, images, k);
      var rest := l[i + |Marker|..];
      PiecesLack(l, i, i + |Marker|, '"');
      ExpandCaptures(rest, images, k + 1, c);
      CapturesStep(l[..i], images, k, ExpandLine(Literal, rest, images, k + 1), c,
                   ExpandLine(Literal, l, images, k));
    } else {
      CapturesUnchanged(l, images, k, c, ExpandLine(Literal, l, images, k));
    }
  }

  /** A line the inner loop leaves as it is yields no payload. */
  lemma CapturesUnchanged(l: string, images: seq<string>, k: nat, c: string, whole: (string, nat))
    requires k <= |images| && '"' !in l && whole == (l, k)
    requires c == "" || c[0] == '<'
    ensures Captures(whole.0 + c) == images[k..whole.1] + Captures(c)
  {
    CapturesNoQuote(l, c);
    assert images[k..k] == [];
  }

  /** One step of the literal inner loop, seen by the capture scan: the payload of the tag it
      wrote, then the payloads of the rest. */
  lemma CapturesStep(before: string, images: seq<string>, k: nat, r: (string, nat), c: string, whole: (string, nat))
    requires k < |images| && k + 1 <= r.1 <= |images| && '"' !in before && IsPayload(images[k])
    requires whole == (before + ImgTag(images[k]) + r.0, r.1)
    requires Captures(r.0 + c) == images[k + 1..r.1] + Captures(c)
    ensures Captures(whole.0 + c) == images[k..whole.1] + Captures(c)
  {
    CapturesOfSplice(before, images[k], r.0, c);
    SliceCons(images, k, r.1);
    Assoc([images[k]], images[k + 1..r.1], Captures(c));
  }

  /** Text without quotes, then a tag, then the rest: the tag's payload, then the rest's. */
  lemma CapturesOfSplice(before: string, b: string, e: string, c: string)
    requires '"' !in before && IsPayload(b)
    ensures Captures(before + ImgTag(b) + e + c) == [b] + Captures(e + c)
  {
    Regroup(before, ImgTag(b), e, c);
    TagChars(b);
    CapturesNoQuote(before, ImgTag(b) + (e + c));
    CapturesOfImage(b, e + c);
  }

  // ---------------------------------------------------------------------------------------------
  // Whole documents

  /** No line of `ls` holds `c`. */
  predicate NoneHolds(ls: seq<string>, c: char) {
    forall i :: 0 <= i < |ls| ==> c !in ls[i]
  }

  /** The lines converted with the literal marker, their tags replaced, are the lines again. */
  lemma {:induction false} TerminatedTags(ls: seq<string>, images: seq<string>, k: nat)
    requires k <= |images| && NoneHolds(ls, '<') && PayloadsFrom(images, k)
    ensures ReplaceTags(Terminated(EncodeFrom(Literal, ls, images, k).0), "<img", Marker) == Terminated(ls)
    decreases |ls|
  {
    if |ls| > 0 {
      var first := ExpandLine(Literal, ls[0], images, k);
      var tail := Terminated(EncodeFrom(Literal, ls[1..], images, first.1).0);
      TerminatedHead(Literal, ls, images, k);
      ExpandTags(ls[0], images, k, LineEnd + tail);
      TerminatedTags(ls[1..], images, first.1);
      TagsOfLines(ls, first.0, tail, Terminated(EncodeFrom(Literal, ls, images, k).0));
    }
  }

  /** One line of the document, seen by the tag replacement: the line given back by its own
      tags, the break kept, then the rest of the lines. */
  lemma TagsOfLines(ls: seq<string>, line: string, tail: string, whole: string)
    requires |ls| > 0 && whole == line + LineEnd + tail
    requires ReplaceTags(line + (LineEnd + tail), "<img", Marker) == ls[0] + ReplaceTags(LineEnd + tail, "<img", Marker)
    requires ReplaceTags(tail, "<img", Marker) == Terminated(ls[1..])
    ensures ReplaceTags(whole, "<img", Marker) == Terminated(ls)
  {
    Assoc(line, LineEnd, tail);
    TagsOfLineEnd(tail);
    Assoc(ls[0], LineEnd, Terminated(ls[1..]));
  }

  /** The lines converted with the literal marker yield exactly the payloads used, in order. */
  lemma {:induction false} TerminatedCaptures(ls: seq<string>, images: seq<string>, k: nat)
    requires k <= |images| && NoneHolds(ls, '"') && PayloadsFrom(images, k)
    ensures var r := EncodeFrom(Literal, ls, images, k);
      Captures(Terminated(r.0)) == images[k..r.1]
    decreases |ls|
  {
    if |ls| > 0 {
      var first := ExpandLine(Literal, ls[0], images, k);
      var r := EncodeFrom(Literal, ls[1..], images, first.1);
      var tail := Terminated(r.0);
      TerminatedHead(Literal, ls, images, k);
      assert (LineEnd + tail)[0] == '<';
      ExpandCaptures(ls[0], images, k, LineEnd + tail);
      TerminatedCaptures(ls[1..], images, first.1);
      CapturesOfLines(first, tail, images, k, r.1, Terminated(EncodeFrom(Literal, ls, images, k).0));
    } else {
      assert images[k..k] == [];
    }
  }

  /** One line of the document, seen by the capture scan: the payloads of the line, then those
      of the rest of the lines. */
  lemma CapturesOfLines(first: (string, nat), tail: string, images: seq<string>, k: nat, n: nat, whole: string)
    requires k <= first.1 <= n <= |images| && whole == first.0 + LineEnd + tail
    requires Captures(first.0 + (LineEnd + tail)) == images[k..first.1] + Captures(LineEnd + tail)
    requires Captures(tail) == images[first.1..n]
    ensures Captures(whole) == images[k..n]
  {
    Assoc(first.0, LineEnd, tail);
    CapturesNoS(LineEnd, tail);
    SliceSplit(images, k, first.1, n);
  }

  /** `<br/>` after each line becomes '\n'. */
  lemma {:induction false} BreaksOfTerminated(ls: seq<string>)
    requires NoneHolds(ls, '<')
    ensures ReplaceLiteral(Terminated(ls), "<br/>", "\n") == EachLine(ls)
    decreases |ls|
  {
    if |ls| > 0 {
      var tail := Terminated(ls[1..]);
      assert Terminated(ls) == ls[0] + (LineEnd + tail);
      ReplaceLiteralSkip(ls[0], LineEnd + tail, "<br/>", "\n");
      ReplaceLiteralHead(tail, "<br/>", "\n");
      BreaksOfTerminated(ls[1..]);
    }
  }

  /** A character that is no line break and in no line is not in the lines joined. */
  lemma {:induction false} EachLineLacks(ls: seq<string>, c: char)
    requires c != '\n' && NoneHolds(ls, c)
    ensures c !in EachLine(ls)
    decreases |ls|
  {
    if |ls| > 0 {
      EachLineLacks(ls[1..], c);
    }
  }

  /** Lines without '<' and '&': the rest of the chain only turns the breaks into '\n'. */
  lemma UnescapeTerminated(ls: seq<string>)
    requires NoneHolds(ls, '<') && NoneHolds(ls, '&')
    ensures Unescape(Terminated(ls)) == EachLine(ls)
  {
    var e := EachLine(ls);
    BreaksOfTerminated(ls);
    EachLineLacks(ls, '<');
    EachLineLacks(ls, '&');
    ReplaceLiteralAbsent(e, "<br>", "\n");
    TagsAbsent(e, "<", "");
  }

  /** The lines of a text hold none of the characters the text does not. */
  lemma LinesLack(text: string, c: char)
    requires c !in text
    ensures NoneHolds(SplitLines(text), c)
  {
    SplitLinesChars(text, c);
  }

  /** Lines without '[' hold no marker, so both loops copy them. */
  lemma {:induction false} EncodeCopies(mode: FirstReplace, ls: seq<string>, images: seq<string>, k: nat)
    requires k <= |images| && NoneHolds(ls, '[')
    ensures EncodeFrom(mode, ls, images, k) == (ls, k)
    decreases |ls|
  {
    if |ls| > 0 {
      if Contains(ls[0], Marker) {
        ContainsFirst(ls[0], Marker);
      }
      EncodeCopies(mode, ls[1..], images, k);
      assert [ls[0]] + ls[1..] == ls;
    }
  }

  /** The editor text comes back from the HTML with the marker taken literally, as long as it
      holds no '<', '&' or '"': each line followed by one '\n', and the payloads that were
      used, in order. */
  lemma FixedRoundTrip(text: string, images: seq<string>)
    requires '<' !in text && '&' !in text && '"' !in text && PayloadsFrom(images, 0)
    ensures Captures(EncodeFixed(text, images)) == images[..EncodeFrom(Literal, SplitLines(text), images, 0).1]
    ensures DecodeText(EncodeFixed(text, images)) == EachLine(SplitLines(text))
  {
    var ls := SplitLines(text);
    LinesLack(text, '<');
    LinesLack(text, '&');
    LinesLack(text, '"');
    TerminatedCaptures(ls, images, 0);
    TerminatedTags(ls, images, 0);
    UnescapeTerminated(ls);
  }

  /** For text without markers, brackets, tags, entities or quotes the code's own encoding
      round-trips: no payload is captured, and each line comes back followed by '\n'. */
  lemma PlainRoundTrip(text: string, images: seq<string>)
    requires '[' !in text && '<' !in text && '&' !in text && '"' !in text
    ensures Encode(text, images) == Terminated(SplitLines(text))
    ensures Captures(Encode(text, images)) == []
    ensures DecodeText(Encode(text, images)) == EachLine(SplitLines(text))
  {
    var ls := SplitLines(text);
    LinesLack(text, '[');
    LinesLack(text, '<');
    LinesLack(text, '&');
    LinesLack(text, '"');
    EncodeCopies(Regex, ls, [], 0);
    EncodeCopies(Regex, ls, images, 0);
    EncodeCopies(Literal, ls, [], 0);
    TerminatedCaptures(ls, [], 0);
    TerminatedTags(ls, [], 0);
    UnescapeTerminated(ls);
  }

  /** What the lines of a split, each followed by '\n', are: nothing for a text of line breaks
      only; otherwise the text up to its trailing line breaks, then exactly one '\n'. */
  lemma DecodedLines(text: string)
    ensures var d := EachLine(SplitLines(text));
      (|SplitLines(text)| == 0 && d == "")
      || (|d| > 0 && d[|d| - 1] == '\n' && |d| - 1 <= |text| && text[..|d| - 1] == d[..|d| - 1]
          && forall k :: |d| - 1 <= k < |text| ==> text[k] == '\n')
  {
    var ls := SplitLines(text);
    if |ls| > 0 {
      EachLineJoin(ls);
      SplitLinesJoin(text);
    }
  }

  /** The lines followed by '\n' each are the lines joined by '\n', then one more. */
  lemma {:induction false} EachLineJoin(ls: seq<string>)
    requires |ls| > 0
    ensures EachLine(ls) == JoinLines(ls) + "\n"
    decreases |ls|
  {
    if |ls| > 1 {
      EachLineJoin(ls[1..]);
    } else {
      assert ls[1..] == [];
    }
  }

  /** The empty text encodes to one line break. */
  lemma EncodeEmpty(images: seq<string>)
    ensures Encode("", images) == LineEnd
  {
    SplitLinesEmpty();
    assert !Contains("", Marker);
    assert EncodeFrom(Regex, [""], images, 0).0 == [""];
    assert [""][1..] == [];
  }

  /** A text of line breaks only encodes to nothing. */
  lemma EncodeOnlyNewlines(text: string, images: seq<string>)
    requires |text| > 0 && forall k :: 0 <= k < |text| ==> text[k] == '\n'
    ensures Encode(text, images) == ""
  {
    SplitLinesOnlyNewlines(text);
  }

  /** The entities are replaced one after the other, `&amp;` first, so an escaped entity is
      unescaped twice: `&amp;lt;` followed by plain text decodes to '<' and that text. */
  lemma EntitiesInOrder(x: string)
    requires '<' !in x && '&' !in x
    ensures DecodeText("&amp;lt;" + x) == "<" + x
  {
    assert "&amp;lt;" + x == "&amp;" + ("lt;" + x);
    DoubleEscape(x);
  }

  /** The entity chain on `&amp;lt;` and plain text. */
  lemma DoubleEscape(x: string)
    requires '<' !in x && '&' !in x
    ensures Entities("&amp;" + ("lt;" + x)) == "<" + x
  {
    var s := "&amp;" + ("lt;" + x);
    assert ReplaceLiteral(s, "&amp;", "&") == "&lt;" + x by {
      ReplaceLiteralHead("lt;" + x, "&amp;", "&");
      ReplaceLiteralAbsent("lt;" + x, "&amp;", "&");
    }
    assert ReplaceLiteral("&lt;" + x, "&lt;", "<") == "<" + x by {
      ReplaceLiteralHead(x, "&lt;", "<");
      ReplaceLiteralAbsent(x, "&lt;", "<");
    }
    assert '&' !in "<" + x;
    LastEntities("<" + x);
  }

  /** The last three entity replacements leave text without '&' as it is. */
  lemma LastEntities(y: string)
    requires '&' !in y
    ensures ReplaceLiteral(ReplaceLiteral(ReplaceLiteral(y, "&gt;", ">"), "&quot;", "\""), "&#39;", "'") == y
  {
    ReplaceLiteralAbsent(y, "&gt;", ">");
    ReplaceLiteralAbsent(y, "&quot;", "\"");
    ReplaceLiteralAbsent(y, "&#39;", "'");
  }

  // ---------------------------------------------------------------------------------------------
  // The regular-expression marker

  /** The first 'I', 'M' or 'G' of a line is what `replaceFirst("[IMG]", tag)` replaces: a lone
      marker keeps its bracket in front of the tag and "MG]" behind it. */
  lemma MarkerEncoded(b: string)
    ensures Encode(Marker, [b]) == "[" + (ImgTag(b) + ("MG]" + LineEnd))
  {
    var tag := ImgTag(b);
    assert '\n' !in Marker;
    assert SplitLines(Marker) == [Marker];
    IndexOfUnique(Marker, Marker, 0, 0);
    assert ClassIndex(Marker, 0) == 1;
    assert Marker[..1] == "[" && Marker[2..] == "MG]";
    var line := "[" + tag + "MG]";
    assert ReplaceFirst(Regex, Marker, tag) == line;
    assert ExpandLine(Regex, Marker, [b], 0) == (line, 1);
    assert [Marker][1..] == [];
    assert EncodeFrom(Regex, [Marker], [b], 0).0 == [line];
    assert Terminated([line]) == line + LineEnd + "";
    Regroup("[", tag, "MG]", LineEnd);
  }

  /** A lone marker and one payload: the HTML gives the payload back... */
  lemma MarkerCaptured(b: string)
    requires IsPayload(b)
    ensures Captures(Encode(Marker, [b])) == [b]
  {
    MarkerEncoded(b);
    RegexMarkerCaptures(b, "MG]" + LineEnd, Encode(Marker, [b]));
  }

  /** The one payload is all that is captured from a tag between a bracket and text without 's'. */
  lemma RegexMarkerCaptures(b: string, rest: string, html: string)
    requires IsPayload(b) && 's' !in rest && html == "[" + (ImgTag(b) + rest)
    ensures Captures(html) == [b]
  {
    CapturesNoS("[", ImgTag(b) + rest);
    CapturesOfImage(b, rest);
    CapturesNoS(rest, "");
    assert rest + "" == rest;
  }

  /** ... but the text comes back as "[[IMG]MG]" and a line break, so the next load turns the
      inner marker into an image between stray characters. */
  lemma MarkerDecoded(b: string)
    requires IsPayload(b)
    ensures DecodeText(Encode(Marker, [b])) == "[" + Marker + "MG]" + "\n"
  {
    MarkerEncoded(b);
    RegexMarkerDecodes(b, Encode(Marker, [b]));
  }

  /** The HTML of the lone marker decodes to "[[IMG]MG]" and a line break. */
  lemma RegexMarkerDecodes(b: string, html: string)
    requires IsPayload(b) && html == "[" + (ImgTag(b) + ("MG]" + LineEnd))
    ensures DecodeText(html) == "[" + Marker + "MG]" + "\n"
  {
    var line := "[" + Marker + "MG]";
    RegexMarkerTags(b, "MG]");
    assert NoneHolds([line], '<') && NoneHolds([line], '&');
    UnescapeTerminated([line]);
    assert [line][1..] == [];
  }

  /** A tag between a bracket and a line's tail turns back into a marker between them. */
  lemma RegexMarkerTags(b: string, tail: string)
    requires IsPayload(b) && '<' !in tail
    ensures ReplaceTags("[" + (ImgTag(b) + (tail + LineEnd)), "<img", Marker) == Terminated(["[" + Marker + tail])
  {
    var line := "[" + Marker + tail;
    TagsSkip("[", ImgTag(b) + (tail + LineEnd), "<img", Marker);
    TagsOfImage(b, tail + LineEnd, Marker);
    TagsSkip(tail, LineEnd, "<img", Marker);
    TagsOfLineEnd("");
    assert [line][1..] == [];
    assert LineEnd + "" == LineEnd;
    Regroup("[", Marker, tail, LineEnd);
  }

  /** A text without 'I' holds no marker. */
  lemma NoMarkerWithoutI(s: string)
    requires 'I' !in s
    ensures !Contains(s, Marker)
  {
    ContainsAt(s, Marker);
    forall i | 0 <= i
      ensures !PrefixAt(s, i, Marker)
    {
      if i + |Marker| <= |s| {
        assert s[i + 1] in s;
        assert s[i..i + |Marker|][1] == s[i + 1];
      }
    }
  }

  /** Where a marker starts, the text contains one. */
  lemma MarkerAt(s: string, i: nat)
    requires PrefixAt(s, i, Marker)
    ensures Contains(s, Marker)
  {
    IndexOfIsFirst(s, Marker, 0);
  }

  /** Where nothing in front is in the class, `replaceFirst("[IMG]", rep)` replaces the class
      character that follows. */
  lemma ClassSplit(u: string, x: char, w: string, rep: string)
    requires forall j :: 0 <= j < |u| ==> !InMarkerClass(u[j])
    requires InMarkerClass(x)
    ensures ReplaceFirstMatch(u + [x] + w, rep) == u + rep + w
  {
    var s := u + [x] + w;
    assert forall j :: 0 <= j < |u| ==> s[j] == u[j];
    ClassIndexUnique(s, 0, |u|);
    assert s[..|u|] == u && s[|u| + 1..] == w;
  }

  lemma OpenLacksClass()
    ensures forall i :: 0 <= i < |ImgOpen| ==> !InMarkerClass(ImgOpen[i])
  {
  }

  /** One step of the inner loop with the regular expression: the first class character of a
      line holding a marker is replaced by the next payload's tag. */
  lemma RegexStep(line: string, u: string, x: char, w: string, images: seq<string>, k: nat)
    requires k < |images| && line == u + [x] + w && Contains(line, Marker)
    requires forall j :: 0 <= j < |u| ==> !InMarkerClass(u[j])
    requires InMarkerClass(x)
    ensures ExpandLine(Regex, line, images, k) == ExpandLine(Regex, u + ImgTag(images[k]) + w, images, k + 1)
  {
    ClassSplit(u, x, w, ImgTag(images[k]));
  }

  /** The marker, cut at its 'I'. */
  lemma MarkerCut(a: string, c: string)
    ensures a + Marker + c == (a + "[") + ['I'] + ("MG]" + c)
    ensures Contains(a + Marker + c, Marker)
  {
    var line := a + Marker + c;
    assert line[|a|..|a| + |Marker|] == Marker;
    MarkerAt(line, |a|);
  }

  /** The code as written on a line with one marker, no 'I', 'M' or 'G' before it and no marker
      after it: the next payload's tag replaces the marker's 'I', the bracket stays in front of
      the tag and "MG]" behind it, and one payload is used. */
  lemma RegexLoneMarker(a: string, c: string, images: seq<string>, k: nat)
    requires k < |images| && IsPayload(images[k])
    requires forall j :: 0 <= j < |a| ==> !InMarkerClass(a[j])
    requires !Contains(c, Marker)
    ensures ExpandLine(Regex, a + Marker + c, images, k) == (a + "[" + ImgTag(images[k]) + ("MG]" + c), k + 1)
  {
    var u := a + "[";
    MarkerCut(a, c);
    assert forall j :: 0 <= j < |u| ==> !InMarkerClass(u[j]);
    RegexStep(a + Marker + c, u, 'I', "MG]" + c, images, k);
    NoMarkerAfterTag(u, images[k], c);
  }

  /** No marker in the text a class character was replaced in: a prefix without 'I', the tag,
      "MG]" and a tail without a marker. */
  lemma NoMarkerAfterTag(u: string, b: string, c: string)
    requires 'I' !in u && IsPayload(b) && !Contains(c, Marker)
    ensures !Contains(u + ImgTag(b) + ("MG]" + c), Marker)
  {
    NoMarkerWithoutI(u);
    TagChars(b);
    IndexPastPiece(u, ImgTag(b), "MG]" + c, Marker);
    NoStartIn("MG]", c, Marker);
    IndexOfSkip("MG]", c, Marker);
  }

  /** Two markers on one line, as the code is written. The first tag replaces the first marker's
      'I'. The second replaces the first class character of the line again, which now lies in
      the first payload wherever that payload holds an 'I', 'M' or 'G' (base64 text holds them
      freely). The second marker stays in the text. */
  lemma RegexNestedTag(p: string, x: char, q: string, b: string)
    requires IsPayload(p + [x] + q) && IsPayload(b) && InMarkerClass(x)
    requires forall j :: 0 <= j < |p| ==> !InMarkerClass(p[j])
    ensures ExpandLine(Regex, Marker + Marker, [p + [x] + q, b], 0)
      == ("[" + ImgOpen + p + ImgTag(b) + (q + ImgClose + ("MG]" + Marker)), 2)
  {
    var images := [p + [x] + q, b];
    var w1 := "MG]" + Marker;
    MarkerCut("", Marker);
    assert "" + Marker + Marker == Marker + Marker;
    assert "" + "[" == "[";
    RegexStep(Marker + Marker, "[", 'I', w1, images, 0);
    var l1 := "[" + ImgTag(images[0]) + w1;
    var u := "[" + ImgOpen + p;
    var w := q + ImgClose + w1;
    Flatten("[", ImgOpen, p, [x], q, ImgClose, w1);
    SecondMarker("[" + ImgTag(images[0]));
    NoClassInFront(p, u);
    RegexStep(l1, u, x, w, images, 1);
  }

  /** What the first replacement leaves of two markers still ends in a marker. */
  lemma SecondMarker(v: string)
    ensures Contains(v + ("MG]" + Marker), Marker)
  {
    var l := v + ("MG]" + Marker);
    assert l[|v| + 3..] == Marker;
    MarkerAt(l, |v| + 3);
  }

  /** The start of a tag and a payload part without 'I', 'M' or 'G' hold no class character. */
  lemma NoClassInFront(p: string, u: string)
    requires u == "[" + ImgOpen + p
    requires forall j :: 0 <= j < |p| ==> !InMarkerClass(p[j])
    ensures forall j :: 0 <= j < |u| ==> !InMarkerClass(u[j])
  {
    OpenLacksClass();
    forall j | 0 <= j < |u|
      ensures !InMarkerClass(u[j])
    {
      if 0 < j < 1 + |ImgOpen| {
        assert u[j] == ImgOpen[j - 1];
      } else if j >= 1 + |ImgOpen| {
        assert u[j] == p[j - 1 - |ImgOpen|];
      }
    }
  }

  /** ... and the payload scan then finds, as the first payload, the part of the first payload
      in front of that character followed by the start of the second tag: not the first
      payload. */
  lemma RegexNestedCaptured(p: string, x: char, q: string, b: string)
    requires IsPayload(p + [x] + q) && IsPayload(b) && InMarkerClass(x)
    requires forall j :: 0 <= j < |p| ==> !InMarkerClass(p[j])
    ensures var found := Captures(Encode(Marker + Marker, [p + [x] + q, b]));
      |found| > 0 && found[0] == p + "<img src=" && found[0] != p + [x] + q
  {
    var line := "[" + ImgOpen + p + ImgTag(b) + (q + ImgClose + ("MG]" + Marker));
    RegexNestedTag(p, x, q, b);
    MarkersLackBreak();
    EncodeOneLine(Marker + Marker, [p + [x] + q, b]);
    PayloadLacks(p + [x] + q, '"');
    NestedCaptures(p, b, q + ImgClose + ("MG]" + Marker) + LineEnd, line + LineEnd + "");
    assert (p + "<img src=")[|p|] == '<' != (p + [x] + q)[|p|];
  }

  /** The case of the two markers with the payloads "AIB" and "c": the scan finds "A<img src="
      first. */
  lemma NestedExample()
    ensures var found := Captures(Encode(Marker + Marker, ["A" + ['I'] + "B", "c"]));
      |found| > 0 && found[0] == "A" + "<img src="
  {
    RegexNestedCaptured("A", 'I', "B", "c");
  }

  lemma MarkersLackBreak()
    ensures '\n' !in Marker + Marker
  {
  }

  /** A text without line breaks is one line, converted and followed by `<br/>`. */
  lemma EncodeOneLine(line: string, images: seq<string>)
    requires '\n' !in line
    ensures Encode(line, images) == ExpandLine(Regex, line, images, 0).0 + LineEnd + ""
  {
    assert SplitLines(line) == [line];
    assert [line][1..] == [];
  }

  /** Regrouping the pieces of the line the second replacement is made in. */
  lemma Flatten(a: string, o: string, p: string, x: string, q: string, c: string, w: string)
    ensures a + (o + (p + x + q) + c) + w == a + o + p + x + (q + c + w)
  {
  }

  /** The start of a tag, cut at the quote of `src="`. */
  lemma OpenPieces(s: string, d: string)
    requires s == "src=\"" + d
    ensures "[" + ("<img " + s) == "[<img " + s && "<img " + s == "<img src=" + ("\"" + d)
  {
  }

  /** Regrouping the pieces of the line with the nested tag. */
  lemma Nest(p: string, b: string, y: string, d: string, g: string, rest: string, html: string)
    requires "[" + ImgOpen == "[<img " + SrcPrefix && "<img " + SrcPrefix == "<img src=" + ("\"" + d)
    requires g == p + "<img src=" && rest == d + b + ImgClose + y
    requires html == "[" + ImgOpen + p + ImgTag(b) + y
    ensures html == "[<img " + (SrcPrefix + g + "\"" + rest)
  {
    assert ImgTag(b) == "<img src=" + ("\"" + d) + b + ImgClose;
  }

  /** A tag cut into by another one: the scan takes the text up to the inner tag's quote. */
  lemma NestedCaptures(p: string, b: string, y: string, html: string)
    requires '"' !in p && html == "[" + ImgOpen + p + ImgTag(b) + y
    ensures |Captures(html)| > 0 && Captures(html)[0] == p + "<img src="
  {
    var g := p + "<img src=";
    assert SrcPrefix[..5] == "src=\"";
    var d := SrcPrefix[5..];
    assert SrcPrefix == SrcPrefix[..5] + d;
    var rest := d + b + ImgClose + y;
    assert SrcPrefix == "src=\"" + d;
    OpenPieces(SrcPrefix, d);
    Nest(p, b, y, d, g, rest, html);
    CapturesNoS("[<img ", SrcPrefix + g + "\"" + rest);
    CapturesMatch(g, rest);
  }

  /** With the marker taken literally, the same text comes back as it was, plus a line break. */
  lemma MarkerFixed(b: string)
    requires IsPayload(b)
    ensures DecodeText(EncodeFixed(Marker, [b])) == Marker + "\n"
  {
    assert PayloadsFrom([b], 0);
    assert '\n' !in Marker;
    assert SplitLines(Marker) == [Marker];
    FixedRoundTrip(Marker, [b]);
    assert [Marker][1..] == [];
  }
}
