/** A note (`Task.java`): six fields, two constructors, plain setters, and the one setter that
    normalises what it is given. */
module Tasks {
  import opened Nullable

  /** The fields of a task at one moment: what the lists hold and what is serialised. */
  datatype TaskRecord = TaskRecord(
    id: JString,
    title: JString,
    description: JString,
    completed: bool,
    createdAt: int,
    imageUri: JString)

  /** The text earlier versions wrote for a missing image. */
  const NullText: string := "null"

  /** An `imageUri` in normal form: null, or a string that is neither empty nor "null". */
  predicate IsNormalUri(u: JString) {
    u.None? || (u.value != "" && u.value != NullText)
  }

  /** What `setImageUri(u)` stores: the empty string and the text "null" become null. */
  function NormalizedUri(u: JString): (r: JString)
    ensures IsNormalUri(r)
    ensures IsNormalUri(u) ==> r == u
    ensures !IsNormalUri(u) ==> r == None
  {
    if u.Some? && (u.value == NullText || u.value == "") then None else u
  }

  /** What `hasImage()` answers for a stored `imageUri`: whether `setImageUri` would keep it. */
  function HasImageUri(u: JString): (r: bool)
    ensures r <==> NormalizedUri(u).Some?
  {
    u.Some? && u.value != "" && NullText != u.value
  }

  /** After normalisation, a task has an image exactly when its `imageUri` is not null, and it
      has one exactly when the raw value already counted as an image. */
  lemma HasImageAfterNormalize(u: JString)
    ensures HasImageUri(NormalizedUri(u)) <==> NormalizedUri(u).Some?
    ensures HasImageUri(NormalizedUri(u)) <==> HasImageUri(u)
  {
  }

  /** `t.setImageUri(t.getImageUri())` on a record. */
  function Normalize(t: TaskRecord): (r: TaskRecord)
    ensures r.imageUri == NormalizedUri(t.imageUri)
    ensures r.(imageUri := t.imageUri) == t
  {
    t.(imageUri := NormalizedUri(t.imageUri))
  }

  /** A decimal digit. */
  function DigitChar(d: nat): (c: char)
    requires d < 10
    ensures '0' <= c <= '9'
  {
    ('0' as int + d) as char
  }

  /** The value of a decimal digit. */
  function DigitValue(c: char): (d: nat)
    requires '0' <= c <= '9'
    ensures d < 10 && DigitChar(d) == c
  {
    c as int - '0' as int
  }

  /** The shortest decimal spelling of `n`. */
  function Digits(n: nat): (r: string)
    ensures |r| > 0 && forall i :: 0 <= i < |r| ==> '0' <= r[i] <= '9'
    decreases n
  {
    if n < 10 then [DigitChar(n)] else Digits(n / 10) + [DigitChar(n % 10)]
  }

  /** `String.valueOf(long)`: a minus sign for negative values, then the digits. */
  function DecimalString(n: int): (r: string)
    ensures |r| > 0
  {
    if n < 0 then "-" + Digits(-n) else Digits(n)
  }

  /** Reads back a string of decimal digits. */
  function DigitsValue(s: string): (n: nat)
    requires forall i :: 0 <= i < |s| ==> '0' <= s[i] <= '9'
    decreases |s|
  {
    if |s| == 0 then 0 else 10 * DigitsValue(s[..|s| - 1]) + DigitValue(s[|s| - 1])
  }

  /** The digits read back as the number they spell. */
  lemma {:induction false} DigitsRoundTrip(n: nat)
    ensures DigitsValue(Digits(n)) == n
    decreases n
  {
    var s := Digits(n);
    if n >= 10 {
      DigitsRoundTrip(n / 10);
      assert s[..|s| - 1] == Digits(n / 10);
      assert s[|s| - 1] == DigitChar(n % 10);
    } else {
      assert s[..0] == [];
      assert s[0] == DigitChar(n);
    }
  }

  /** Two clock readings give the same id only when they are the same reading. */
  lemma {:induction false} DecimalStringInjective(m: int, n: int)
    requires DecimalString(m) == DecimalString(n)
    ensures m == n
  {
    var a, b := DecimalString(m), DecimalString(n);
    if m < 0 && n < 0 {
      assert Digits(-m) == a[1..] == b[1..] == Digits(-n);
      DigitsRoundTrip(-m);
      DigitsRoundTrip(-n);
    } else if m >= 0 && n >= 0 {
      DigitsRoundTrip(m);
      DigitsRoundTrip(n);
    } else {
      DecimalSign(m);
      DecimalSign(n);
    }
  }

  /** The spelling starts with a minus sign exactly for negative values. */
  lemma DecimalSign(n: int)
    ensures DecimalString(n)[0] == '-' <==> n < 0
  {
    if n >= 0 {
      assert DecimalString(n)[0] == Digits(n)[0];
    }
  }

  /** The record `new Task()` builds from its two clock readings: the first gives the id, the
      second the creation time; the other fields are at their defaults. */
  function NewRecord(idMillis: int, createdMillis: int): (r: TaskRecord)
    ensures r.id.Some? && r.createdAt == createdMillis && !r.completed
    ensures r.title.None? && r.description.None? && r.imageUri.None?
    ensures !HasImageUri(r.imageUri)
  {
    TaskRecord(Some(DecimalString(idMillis)), None, None, false, createdMillis, None)
  }

  /** Tasks created at different instants have different ids. */
  lemma NewRecordIds(m: int, n: int, c: int, d: int)
    requires m != n
    ensures NewRecord(m, c).id != NewRecord(n, d).id
  {
    if NewRecord(m, c).id == NewRecord(n, d).id {
      DecimalStringInjective(m, n);
    }
  }

  /** The mutable task object. */
  class Task {
    var id: JString
    var title: JString
    var description: JString
    var completed: bool
    var createdAt: int
    var imageUri: JString

    /** The object's fields as a record. */
    function Value(): TaskRecord
      reads this
    {
      TaskRecord(id, title, description, completed, createdAt, imageUri)
    }

    /** `new Task()`; the clock is read twice, once for the id, once for `createdAt`. */
    constructor Empty(idMillis: int, createdMillis: int)
      ensures Value() == NewRecord(idMillis, createdMillis)
    {
      id := Some(DecimalString(idMillis));
      createdAt := createdMillis;
      completed := false;
      title := None;
      description := None;
      imageUri := None;
    }

    /** `new Task(title, description)`: the no-argument constructor, then the two texts. */
    constructor (title: JString, description: JString, idMillis: int, createdMillis: int)
      ensures Value() == NewRecord(idMillis, createdMillis).(title := title, description := description)
    {
      id := Some(DecimalString(idMillis));
      createdAt := createdMillis;
      completed := false;
      imageUri := None;
      this.title := title;
      this.description := description;
    }

    method SetId(id: JString)
      modifies this
      ensures Value() == old(Value()).(id := id)
    {
      this.id := id;
    }

    method SetTitle(title: JString)
      modifies this
      ensures Value() == old(Value()).(title := title)
    {
      this.title := title;
    }

    method SetDescription(description: JString)
      modifies this
      ensures Value() == old(Value()).(description := description)
    {
      this.description := description;
    }

    method SetCompleted(completed: bool)
      modifies this
      ensures Value() == old(Value()).(completed := completed)
    {
      this.completed := completed;
    }

    method SetCreatedAt(createdAt: int)
      modifies this
      ensures Value() == old(Value()).(createdAt := createdAt)
    {
      this.createdAt := createdAt;
    }

    /** Stores the normal form of `u`; after it, `HasImage` and "the field is not null" agree. */
    method SetImageUri(u: JString)
      modifies this
      ensures Value() == old(Value()).(imageUri := NormalizedUri(u))
      ensures HasImage() <==> imageUri.Some?
    {
      if u.Some? && (u.value == NullText || u.value == "") {
        imageUri := None;
      } else {
        imageUri := u;
      }
      HasImageAfterNormalize(u);
    }

    /** `hasImage()`. */
    function HasImage(): (r: bool)
      reads this
      ensures r <==> NormalizedUri(imageUri).Some?
    {
      HasImageUri(imageUri)
    }
  }
}
