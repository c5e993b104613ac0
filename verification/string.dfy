/**
 `vsl::string<Capacity>`: a fixed-capacity, non-allocating string held in a
 `Capacity + 1` character buffer with a length counter. The character at
 index `size` is always the terminator `'\0'`, so the buffer can be handed to
 C code as it is. The capacity is checked against the platform's maximum
 string length when the type is instantiated.
 */
module VslString {
  import opened BasicTypes
  import opened CString
  import opened Decimal
  import Platform

  function Min(a: nat, b: nat): nat
  {
    if a <= b then a else b
  }

  datatype BoundedString = BoundedString(capacity: Len, size: Len, buffer: seq<char>)
  {
    /** Representation invariant, including the terminator. */
    predicate Valid()
    {
      |buffer| == capacity + 1 && size <= capacity && buffer[size] == '\0'
    }

    /** The logical content: the characters `[0, size)`. */
    function Content(): seq<char>
      requires Valid()
    {
      buffer[..size]
    }

    /** What a C reader of `c_str()` sees: the buffer up to its first NUL. It
        never runs past the content, stops at the first NUL stored inside the
        content, and is the whole content when there is none. */
    function View(): (r: seq<char>)
      requires Valid()
      ensures r <= Content() && '\0' !in r
      ensures |r| < size ==> Content()[|r|] == '\0'
      ensures '\0' !in Content() ==> r == Content()
    {
      var r := TextBefore(buffer);
      assert |r| <= size;
      if '\0' !in Content() then TextBeforeIs(buffer, Content()); r else r
    }

    /** `empty()`. */
    function Empty(): (r: bool)
      requires Valid()
      ensures r <==> Content() == []
    {
      size == 0
    }

    /** The copy step shared by the constructor and `assign`: the text goes
        to the front of the buffer, the size becomes its length, and the
        terminator is written right after it. */
    function Store(s: seq<char>): (r: BoundedString)
      requires Valid() && |s| <= capacity
      ensures r.Valid() && r.capacity == capacity
      ensures r.size == |s| && r.Content() == s
      ensures r.buffer[|s| + 1..] == buffer[|s| + 1..]
    {
      var b := (s + buffer[|s|..])[|s| := '\0'];
      assert b[..|s|] == s;
      BoundedString(capacity, |s|, b)
    }

    /** `clear()`: empties the string; only the first slot is rewritten. */
    function Clear(): (r: BoundedString)
      requires Valid()
      ensures r.Valid() && r.capacity == capacity
      ensures r.size == 0 && r.Content() == []
      ensures r.buffer[1..] == buffer[1..]
    {
      BoundedString(capacity, 0, buffer[0 := '\0'])
    }

    /** `assign(cstr)`: refuses a null pointer and changes nothing; otherwise
        keeps as much of the source as fits and reports success even when the
        rest is cut off. */
    function Assign(cstr: CStr): (r: Step<BoundedString>)
      requires Valid() && WellFormed(cstr)
      ensures r.after.Valid() && r.after.capacity == capacity
      ensures r.ok <==> cstr.Some?
      ensures cstr.None? ==> r.after == this
      ensures cstr.Some? ==> r.after.size == Min(|cstr.value|, capacity)
      ensures cstr.Some? ==> r.after.Content() == cstr.value[..Min(|cstr.value|, capacity)]
    {
      match cstr
      case None => Step(false, this)
      case Some(s) => Step(true, Store(s[..MaxCopy(s, capacity)]))
    }

    /** `push_back(c)`: appends one character while there is room; when the
        string is full it fails and changes nothing. */
    function PushBack(c: char): (r: Step<BoundedString>)
      requires Valid()
      ensures r.after.Valid() && r.after.capacity == capacity
      ensures r.ok <==> size < capacity
      ensures !r.ok ==> r.after == this
      ensures r.ok ==> r.after.size == size + 1 && r.after.Content() == Content() + [c]
    {
      if size >= capacity then
        Step(false, this)
      else
        var b := buffer[size := c][size + 1 := '\0'];
        assert b[..size + 1] == Content() + [c];
        Step(true, BoundedString(capacity, size + 1, b))
    }

    /** `at(index)`: always defined; past the content it yields the
        terminator character. */
    function At(index: Len): (r: char)
      requires Valid()
      ensures index < |Content()| ==> r == Content()[index]
      ensures index >= |Content()| ==> r == '\0'
    {
      if index < size then buffer[index] else '\0'
    }

    /** `operator[]`: unchecked beyond the buffer's own bounds. Up to and
        including `size` it agrees with `at`, thanks to the terminator. */
    function Index(index: Len): (r: char)
      requires Valid() && index <= capacity
      ensures index <= size ==> r == At(index)
    {
      buffer[index]
    }

    /** `operator==(cstr)`: false for a null pointer, otherwise `strcmp` of
        the buffer against the source. It compares what a C reader sees, which
        is the logical content whenever that content holds no NUL. */
    function EqualsCStr(cstr: CStr): (r: bool)
      requires Valid() && WellFormed(cstr)
      ensures cstr.None? ==> !r
      ensures cstr.Some? ==> (r <==> View() == cstr.value)
      ensures cstr.Some? && '\0' !in Content() ==> (r <==> Content() == cstr.value)
    {
      match cstr
      case None => false
      case Some(s) => StrCmpEq(buffer, s)
    }

    /** `from_int(value)`: clears the string, renders the value into a
        scratch buffer, and, if the text fits, copies it into the string.
        On failure the string is left cleared. */
    method FromInt(v: Int32) returns (r: Step<BoundedString>)
      requires Valid()
      ensures r.after.Valid() && r.after.capacity == capacity
      ensures r.ok <==> |Render(v as int)| <= capacity
      ensures !r.ok ==> r.after == Clear()
      ensures r.ok ==> r.after.Content() == Render(v as int)
      ensures r.ok ==> Parse(r.after.Content()) == v as int
    {
      var cleared := Clear();
      var tmp := ScratchDigits(v);
      var i := |tmp|;
      if i > capacity {
        return Step(false, cleared);
      }
      var buf := CopyBackwards(cleared.buffer, tmp);
      buf := buf[i := '\0'];
      assert buf[..i] == Reverse(tmp);
      RenderRoundTrip(v as int);
      r := Step(true, BoundedString(capacity, i, buf));
    }
  }

  /** The first half of `from_int`: the decimal digits of the magnitude, least
      significant first, in a scratch buffer of at most twelve characters,
      followed by `'-'` for a negative value. The magnitude is computed in
      unbounded arithmetic, so the most negative 32-bit value is handled
      correctly here (see `FromIntAsWritten` for the source's own negation). */
  method ScratchDigits(v: Int32) returns (tmp: seq<char>)
    ensures |tmp| <= 11
    ensures Reverse(tmp) == Render(v as int)
  {
    var value: int := v as int;
    var negative := false;
    if value < 0 {
      negative := true;
      value := -value;
    }
    ghost var m: nat := value;
    RenderLength(v);
    assert |DecimalDigits(m)| <= 10;

    tmp := [DigitChar(value % 10)];
    value := value / 10;
    while value != 0 && |tmp| < 12
      invariant 0 <= value
      invariant value == 0 ==> Reverse(tmp) == DecimalDigits(m)
      invariant value != 0 ==> DecimalDigits(m) == DecimalDigits(value) + Reverse(tmp)
      invariant |tmp| <= |DecimalDigits(m)|
      decreases value
    {
      var d := DigitChar(value % 10);
      assert Reverse(tmp + [d]) == [d] + Reverse(tmp);
      tmp := tmp + [d];
      value := value / 10;
    }
    if negative {
      assert Reverse(tmp + ['-']) == ['-'] + Reverse(tmp);
      tmp := tmp + ['-'];
    }
  }

  /** The second half of `from_int`: slot `j` of the buffer receives the
      scratch character counted `j` from the end, for every `j` below the
      scratch length; the rest of the buffer is left alone. */
  method CopyBackwards(buf0: seq<char>, tmp: seq<char>) returns (buf: seq<char>)
    requires |tmp| <= |buf0|
    ensures |buf| == |buf0|
    ensures buf[..|tmp|] == Reverse(tmp)
    ensures buf[|tmp|..] == buf0[|tmp|..]
  {
    buf := buf0;
    var i := |tmp|;
    var j := 0;
    while j < i
      invariant 0 <= j <= i && |buf| == |buf0|
      invariant forall k :: 0 <= k < j ==> buf[k] == tmp[i - k - 1]
      invariant forall k :: j <= k < |buf| ==> buf[k] == buf0[k]
    {
      buf := buf[j := tmp[i - j - 1]];
      j := j + 1;
    }
  }

  /** The scan of `max_copy`, resumed at `n`: advances while the source has
      a character at `n` and `n` is below the capacity. */
  function MaxCopyFrom(s: seq<char>, capacity: Len, n: Len): (r: Len)
    requires '\0' !in s && n <= |s| && n <= capacity
    ensures r == Min(|s|, capacity)
    decreases capacity - n
  {
    if CharAt(s, n) != '\0' && n < capacity then MaxCopyFrom(s, capacity, n + 1) else n
  }

  /** `max_copy(s)`: how many characters of a C string fit. */
  function MaxCopy(s: seq<char>, capacity: Len): (r: Len)
    requires '\0' !in s
    ensures r == Min(|s|, capacity)
  {
    MaxCopyFrom(s, capacity, 0)
  }

  /** The default constructor: an empty, zero-filled string. The capacity
      must be below the target's maximum string length. */
  function New(target: Platform.Target, capacity: Len): (s: BoundedString)
    requires capacity < Platform.StrlenMax(target)
    ensures s.Valid() && s.capacity == capacity
    ensures s.Content() == [] && s.Empty()
    ensures forall i :: 0 <= i <= capacity ==> s.buffer[i] == '\0'
  {
    BoundedString(capacity, 0, seq(capacity + 1, _ => '\0'))
  }

  /** The constructor from a C string: a null pointer yields the empty
      string; otherwise the source is copied with the same silent truncation
      as `assign`. */
  function FromCStr(target: Platform.Target, capacity: Len, cstr: CStr): (s: BoundedString)
    requires capacity < Platform.StrlenMax(target) && WellFormed(cstr)
    ensures s.Valid() && s.capacity == capacity
    ensures cstr.None? ==> s.Content() == []
    ensures cstr.Some? ==> s.size == Min(|cstr.value|, capacity)
    ensures cstr.Some? ==> s.Content() == cstr.value[..Min(|cstr.value|, capacity)]
  {
    var zeroed := New(target, capacity);
    match cstr
    case None => zeroed
    case Some(src) => zeroed.Store(src[..MaxCopy(src, capacity)])
  }

  /** A sequence of `push_back` calls, their results ignored. */
  function PushAll(s: BoundedString, cs: seq<char>): (r: BoundedString)
    requires s.Valid()
    ensures r.Valid() && r.capacity == s.capacity
    decreases |cs|
  {
    if |cs| == 0 then s else PushAll(s.PushBack(cs[0]).after, cs[1..])
  }

  /** Pushing a run of characters keeps exactly the ones that fit: the
      content becomes the old content followed by the pushed characters, cut
      at the capacity. */
  lemma {:induction false} PushAllKeepsWhatFits(s: BoundedString, cs: seq<char>)
    requires s.Valid()
    ensures PushAll(s, cs).Content() == (s.Content() + cs)[..Min(s.size + |cs|, s.capacity)]
    decreases |cs|
  {
    if |cs| > 0 {
      var t := s.PushBack(cs[0]).after;
      PushAllKeepsWhatFits(t, cs[1..]);
      if s.size < s.capacity {
        assert t.Content() + cs[1..] == s.Content() + cs;
      } else {
        assert (s.Content() + cs)[..s.capacity] == s.Content();
        assert (t.Content() + cs[1..])[..s.capacity] == s.Content();
      }
    }
  }

  /** Clearing a string and then pushing characters leaves the same content
      as pushing them onto a freshly constructed string. */
  lemma ClearThenPushesMatchesFresh(target: Platform.Target, s: BoundedString, cs: seq<char>)
    requires s.Valid() && s.capacity < Platform.StrlenMax(target)
    ensures PushAll(s.Clear(), cs).size == PushAll(New(target, s.capacity), cs).size
    ensures PushAll(s.Clear(), cs).Content() == PushAll(New(target, s.capacity), cs).Content()
  {
    PushAllKeepsWhatFits(s.Clear(), cs);
    PushAllKeepsWhatFits(New(target, s.capacity), cs);
  }

  /** `clear()` rewrites only the first slot, so the old characters past the
      terminator stay readable through `operator[]`; a fresh string holds
      zeros there. Clearing therefore restores the content of a fresh string
      but not its whole buffer. */
  lemma ClearKeepsOldBytes(target: Platform.Target)
    ensures BoundedString(2, 2, "ab\0").Valid()
    ensures BoundedString(2, 2, "ab\0").Clear().Index(1) == 'b'
    ensures New(target, 2).Index(1) == '\0'
  {
  }

  /** A C string that fits is stored whole, and the string then compares
      equal to it. */
  lemma ConstructRoundTrip(target: Platform.Target, capacity: Len, src: seq<char>)
    requires capacity < Platform.StrlenMax(target) && '\0' !in src && |src| <= capacity
    ensures FromCStr(target, capacity, Some(src)).Content() == src
    ensures FromCStr(target, capacity, Some(src)).View() == src
    ensures FromCStr(target, capacity, Some(src)).EqualsCStr(Some(src))
  {
    assert src[..|src|] == src;
  }

  /** `operator==` looks only as far as the first NUL: a string whose content
      is `"a\0"`, built by two `push_back` calls, compares equal to `"a"`. */
  lemma EmbeddedNulHidden(target: Platform.Target)
    ensures PushAll(New(target, 2), "a\0").Content() == "a\0"
    ensures PushAll(New(target, 2), "a\0").EqualsCStr(Some("a"))
  {
    var s := PushAll(New(target, 2), "a\0");
    PushAllKeepsWhatFits(New(target, 2), "a\0");
    assert s.buffer[..2] == "a\0";
    assert TextBefore(s.buffer) == "a";
  }
}
