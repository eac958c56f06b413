/** The list screen's adapter (`TaskAdapter.java`): the positions the user has selected, the
    selection mode, the text preview of a note and the payload of its thumbnail. */
module Adapter {
  import opened Nullable
  import opened Strings
  import opened Lists
  import opened Tasks
  import opened RichText
  import opened RichTextLaws

  // ---------------------------------------------------------------------------------------------
  // The selection list

  /** Java's `list.remove((Integer) p)`: the first occurrence of the value `p` goes, if any. */
  function RemoveFirst(s: seq<int>, p: int): (r: seq<int>)
    ensures p !in s ==> r == s
    ensures |r| == (if p in s then |s| - 1 else |s|)
    decreases |s|
  {
    if |s| == 0 then []
    else if s[0] == p then s[1..]
    else
      assert p in s <==> p in s[1..];
      [s[0]] + RemoveFirst(s[1..], p)
  }

  /** What `toggleSelection(p)` makes of the list: `p` removed if it is there, appended if not,
      so the list is one shorter or one longer. */
  function Toggled(s: seq<int>, p: int): (r: seq<int>)
    ensures |r| == (if p in s then |s| - 1 else |s| + 1)
  {
    if p in s then RemoveFirst(s, p) else s + [p]
  }

  /** Removing the first occurrence is removing at its index. */
  lemma {:induction false} RemoveFirstAt(s: seq<int>, p: int, i: nat)
    requires i < |s| && s[i] == p && p !in s[..i]
    ensures RemoveFirst(s, p) == RemoveAt(s, i)
    decreases i
  {
    if i > 0 {
      assert s[0] == s[..i][0];
      assert s[1..][..i - 1] == s[..i][1..];
      RemoveFirstAt(s[1..], p, i - 1);
      RemoveAtCons(s, i);
    }
  }

  /** In a list without repeats, the value removed is gone, and nothing else changes membership. */
  lemma {:induction false} RemoveFirstMembers(s: seq<int>, p: int, q: int)
    requires Distinct(s)
    ensures q in RemoveFirst(s, p) <==> q in s && q != p
    decreases |s|
  {
    if |s| > 0 {
      assert s == [s[0]] + s[1..];
      assert s[0] !in s[1..];
      if s[0] != p {
        RemoveFirstMembers(s[1..], p, q);
      }
    }
  }

  /** Removing a value keeps a list free of repeats. */
  lemma {:induction false} RemoveFirstDistinct(s: seq<int>, p: int)
    requires Distinct(s)
    ensures Distinct(RemoveFirst(s, p))
    decreases |s|
  {
    if |s| > 0 && s[0] != p {
      var t := RemoveFirst(s[1..], p);
      RemoveFirstDistinct(s[1..], p);
      RemoveFirstMembers(s[1..], p, s[0]);
      var r := [s[0]] + t;
      forall j, k | 0 <= j < k < |r|
        ensures r[j] != r[k]
      {
        assert r[k] == t[k - 1];
        if j > 0 {
          assert r[j] == t[j - 1];
        }
      }
    }
  }

  /** The list the adapter keeps never holds a position twice, and toggling keeps it so. */
  lemma ToggleKeepsDistinct(s: seq<int>, p: int)
    requires Distinct(s)
    ensures Distinct(Toggled(s, p))
  {
    if p in s {
      RemoveFirstDistinct(s, p);
    } else {
      var r := s + [p];
      forall j, k | 0 <= j < k < |r|
        ensures r[j] != r[k]
      {
        if k == |s| {
          assert r[j] == s[j];
        }
      }
    }
  }

  /** After a toggle, a position is selected exactly when it was selected before or is the one
      toggled, but not both. */
  lemma ToggleMembers(s: seq<int>, p: int, q: int)
    requires Distinct(s)
    ensures q in Toggled(s, p) <==> (q in s) != (q == p)
  {
    if p in s {
      RemoveFirstMembers(s, p, q);
    }
  }

  /** Toggling a position that was not selected, twice, gives the list back. */
  lemma ToggleTwiceAbsent(s: seq<int>, p: int)
    requires p !in s
    ensures Toggled(Toggled(s, p), p) == s
  {
    var r := s + [p];
    assert p in r && r[|s|] == p && r[..|s|] == s;
    RemoveFirstAt(r, p, |s|);
  }

  /** Toggling a selected position twice moves it to the end of the list. */
  lemma ToggleTwicePresent(s: seq<int>, p: int)
    requires Distinct(s) && p in s
    ensures Toggled(Toggled(s, p), p) == RemoveFirst(s, p) + [p]
  {
    RemoveFirstMembers(s, p, p);
  }

  // ---------------------------------------------------------------------------------------------
  // The preview of a description

  /** How many characters of the preview are shown before it is cut. */
  const PreviewLimit: nat := 100
  /** What is appended to a preview that was cut. */
  const Ellipsis: string := "..."
  /** The word an image tag becomes in the preview. */
  const ImagePlaceholder: string := "[Изображение]"

  /** The preview text cut to its first 100 characters and "..." when it is longer than that. */
  function Truncate(s: string): (r: string)
    ensures |r| <= PreviewLimit + |Ellipsis|
    ensures |s| <= PreviewLimit ==> r == s
    ensures |s| > PreviewLimit ==> |r| == PreviewLimit + |Ellipsis|
    ensures |s| > PreviewLimit ==> r[..PreviewLimit] == s[..PreviewLimit] && r[PreviewLimit..] == Ellipsis
  {
    if |s| > PreviewLimit then s[..PreviewLimit] + Ellipsis else s
  }

  /** Cutting a preview that was already cut changes nothing. */
  lemma TruncateIdempotent(s: string)
    ensures Truncate(Truncate(s)) == Truncate(s)
  {
    var r := Truncate(s);
    if |s| > PreviewLimit {
      assert r == r[..PreviewLimit] + r[PreviewLimit..];
    }
  }

  /** The description text shown in a row: empty for a missing or empty description; otherwise
      every image tag becomes the placeholder word, `fromHtml` (which stands for
      `Html.fromHtml(..).toString()`) renders the rest, and the result is cut. */
  function Preview(description: JString, fromHtml: string -> string): (r: string)
    ensures description.None? || description.value == "" ==> r == ""
    ensures |r| <= PreviewLimit + |Ellipsis|
  {
    if description.None? || description.value == "" then ""
    else Truncate(fromHtml(ReplaceTags(description.value, "<img", ImagePlaceholder)))
  }

  /** The preview never shows a payload: text without '<', an image tag, then the rest reaches
      `fromHtml` as the text, the placeholder word, then the rest with its own tags replaced. */
  lemma PreviewHidesImage(a: string, b: string, c: string)
    requires '<' !in a && IsPayload(b)
    ensures ReplaceTags(a + ImgTag(b) + c, "<img", ImagePlaceholder)
      == a + ImagePlaceholder + ReplaceTags(c, "<img", ImagePlaceholder)
  {
    assert a + ImgTag(b) + c == a + (ImgTag(b) + c);
    TagsSkip(a, ImgTag(b) + c, "<img", ImagePlaceholder);
    TagsOfImage(b, c, ImagePlaceholder);
  }

  /** Whether the row shows a thumbnail: the description is present, not empty, and holds
      "<img" somewhere. */
  function ShowsThumbnail(description: JString): (r: bool)
    ensures r <==> description.Some? && exists i :: PrefixAt(description.value, i, "<img")
  {
    ContainsAt(if description.Some? then description.value else "", "<img");
    description.Some? && description.value != "" && Contains(description.value, "<img")
  }

  /** A description with an image tag in it shows a thumbnail. */
  lemma ThumbnailOfImage(a: string, b: string, c: string)
    requires IsPayload(b)
    ensures ShowsThumbnail(Some(a + ImgTag(b) + c))
  {
    var h := a + ImgTag(b) + c;
    assert h[|a|..|a| + 4] == "<img";
    assert PrefixAt(h, |a|, "<img");
    IndexOfIsFirst(h, "<img", 0);
  }

  // ---------------------------------------------------------------------------------------------
  // The thumbnail's payload

  /** The payload `loadFirstImage` decodes: one `matcher.find()` of the `src` pattern, which
      looks for the first place a match starts and takes its group. It finds a group exactly
      when the editor's scan finds payloads, and then the first of them. */
  function FirstImage(html: string): (r: Option<string>)
    ensures r.Some? <==> |Captures(html)| > 0
    ensures r.Some? ==> r.value == Captures(html)[0] && |r.value| > 0
    decreases |html|
  {
    if |html| == 0 then None
    else if CaptureEnd(html) != -1 then Some(html[|SrcPrefix|..CaptureEnd(html)])
    else FirstImage(html[1..])
  }

  /** The key `extractFirstImageBase64` looks for. */
  const Base64Key: string := "base64,"

  /** `extractFirstImageBase64(html)`: the text between the first "base64," and the next '"', or
      null when either is missing. */
  function ExtractFirstImageBase64(html: string): (r: JString)
    ensures r.None? <==> (IndexOf(html, Base64Key, 0) == -1
                          || Find(html, '"', IndexOf(html, Base64Key, 0) + |Base64Key|) == -1)
    ensures r.Some? ==> ('"' !in r.value
                         && PrefixAt(html, IndexOf(html, Base64Key, 0) + |Base64Key|, r.value + "\""))
  {
    var start := IndexOf(html, Base64Key, 0);
    if start == -1 then None
    else
      var from := start + |Base64Key|;
      var end := Find(html, '"', from);
      if end == -1 then None
      else
        FindIsFirst(html, '"', from);
        assert html[from..end + 1] == html[from..end] + "\"";
        Some(html[from..end])
  }

  /** Where "base64," stands in the opening of an image tag. */
  const KeyAt: nat := 26

  lemma OpenParts()
    ensures ImgOpen == ImgOpen[..KeyAt] + Base64Key
    ensures ImgOpen[0] !in Base64Key && Base64Key[0] !in ImgOpen[..KeyAt]
  {
    assert ImgOpen[KeyAt..] == Base64Key;
  }

  /** In an HTML whose first image tag follows text without "base64,", the helper gives that
      tag's payload. */
  lemma ExtractOfImage(a: string, b: string, c: string)
    requires IsPayload(b) && IndexOf(a, Base64Key, 0) == -1
    ensures ExtractFirstImageBase64(a + ImgTag(b) + c) == Some(b)
  {
    OpenParts();
    var t := ImgOpen[..KeyAt];
    assert a + ImgTag(b) + c == a + t + (Base64Key + (b + (ImgClose + c))) by {
      assert ImgTag(b) + c == t + Base64Key + b + (ImgClose + c);
    }
    ExtractBehind(a, t, b, ImgClose + c);
  }

  /** The helper on text without "base64,", a piece that shares no character with the key's
      start, the key, a payload and a quote. */
  lemma ExtractBehind(a: string, t: string, b: string, y: string)
    requires IsPayload(b) && |y| > 0 && y[0] == '"' && IndexOf(a, Base64Key, 0) == -1
    requires |t| > 0 && t[0] !in Base64Key && Base64Key[0] !in t
    ensures ExtractFirstImageBase64(a + t + (Base64Key + (b + y))) == Some(b)
  {
    var x := Base64Key + (b + y);
    IndexOfIsFirst(x, Base64Key, 0);
    assert x[..|Base64Key|] == Base64Key;
    IndexPastPiece(a, t, x, Base64Key);
    ExtractAt(a + t + x, a + t + Base64Key, b, y);
  }

  /** The helper on an HTML whose first "base64," ends at a payload that a quote follows. */
  lemma ExtractAt(h: string, q: string, b: string, y: string)
    requires IsPayload(b) && |y| > 0 && y[0] == '"'
    requires h == q + b + y && IndexOf(h, Base64Key, 0) != -1
    requires IndexOf(h, Base64Key, 0) + |Base64Key| == |q|
    ensures ExtractFirstImageBase64(h) == Some(b)
  {
    PayloadEnds(q, b, y);
  }

  /** A payload is followed by the tag's closing quote: the first quote after it. */
  lemma PayloadEnds(q: string, b: string, y: string)
    requires IsPayload(b) && |y| > 0 && y[0] == '"'
    ensures Find(q + b + y, '"', |q|) == |q| + |b| && (q + b + y)[|q|..|q| + |b|] == b
  {
    forall j | |q| <= j < |q + b|
      ensures (q + b)[j] != '"'
    {
      assert (q + b)[j] == b[j - |q|];
      assert IsBase64Char(b[j - |q|]);
    }
    FindAfter(q + b, '"', y, |q|);
    assert (q + b + y)[|q|..|q| + |b|] == b;
  }

  /** In an HTML whose first image tag follows text without a quote, the thumbnail is that tag's
      payload. */
  lemma FirstImageOfImage(a: string, b: string, c: string)
    requires IsPayload(b) && '"' !in a
    ensures FirstImage(a + ImgTag(b) + c) == Some(b)
  {
    assert a + ImgTag(b) + c == a + (ImgTag(b) + c);
    TagChars(b);
    CapturesNoQuote(a, ImgTag(b) + c);
    CapturesOfImage(b, c);
  }

  /** Where the first image tag follows text with neither a quote nor "base64,", the extracting
      helper and the thumbnail agree. */
  lemma ExtractAgreesWithThumbnail(a: string, b: string, c: string)
    requires IsPayload(b) && '"' !in a && IndexOf(a, Base64Key, 0) == -1
    ensures ExtractFirstImageBase64(a + ImgTag(b) + c) == FirstImage(a + ImgTag(b) + c) == Some(b)
  {
    ExtractOfImage(a, b, c);
    FirstImageOfImage(a, b, c);
  }

  // ---------------------------------------------------------------------------------------------
  // The adapter

  class TaskAdapter {
    var taskList: seq<TaskRecord>
    var selectedPositions: seq<int>
    var selectionMode: bool

    /** `new TaskAdapter(taskList, listener)`: nothing selected, not in selection mode. */
    constructor (taskList: seq<TaskRecord>)
      ensures this.taskList == taskList && selectedPositions == [] && !selectionMode
    {
      this.taskList := taskList;
      selectedPositions := [];
      selectionMode := false;
    }

    /** Whether the row at `position` is drawn as selected. */
    function IsSelected(position: int): (r: bool)
      reads this
      ensures r <==> exists i :: 0 <= i < |selectedPositions| && selectedPositions[i] == position
    {
      position in selectedPositions
    }

    method ToggleSelection(position: int)
      modifies this
      ensures selectedPositions == Toggled(old(selectedPositions), position)
      ensures Distinct(old(selectedPositions)) ==> Distinct(selectedPositions)
      ensures Distinct(old(selectedPositions)) ==>
        (IsSelected(position) <==> !old(IsSelected(position)))
      ensures selectionMode == old(selectionMode) && taskList == old(taskList)
    {
      ghost var before := selectedPositions;
      if position in selectedPositions {
        selectedPositions := RemoveFirst(selectedPositions, position);
      } else {
        selectedPositions := selectedPositions + [position];
      }
      if Distinct(before) {
        ToggleKeepsDistinct(before, position);
        ToggleMembers(before, position, position);
      }
    }

    method ClearSelection()
      modifies this
      ensures selectedPositions == [] && !selectionMode && taskList == old(taskList)
    {
      selectedPositions := [];
      selectionMode := false;
    }

    /** A copy of the selection: a value, so later toggles leave it as it is. */
    method GetSelectedPositions() returns (r: seq<int>)
      ensures r == selectedPositions
    {
      r := selectedPositions;
    }

    /** Leaving selection mode empties the selection; entering it keeps the selection. */
    method SetSelectionMode(mode: bool)
      modifies this
      ensures selectionMode == mode && taskList == old(taskList)
      ensures mode ==> selectedPositions == old(selectedPositions)
      ensures !mode ==> selectedPositions == []
    {
      selectionMode := mode;
      if !mode {
        ClearSelection();
      }
    }

    method IsSelectionMode() returns (r: bool)
      ensures r == selectionMode
    {
      r := selectionMode;
    }
  }

  /** What the screen does when it asks for the selection and the user then taps a row again: the
      list it holds is the one from before the tap. */
  method SelectionThenToggle(adapter: TaskAdapter, position: int) returns (copy: seq<int>)
    modifies adapter
    ensures copy == old(adapter.selectedPositions)
    ensures adapter.selectedPositions == Toggled(copy, position)
  {
    copy := adapter.GetSelectedPositions();
    adapter.ToggleSelection(position);
  }
}
