/** `decode_char_array`: a NetCDF character array (one character per
    element, as bytes or as text) becomes a Python string with surrounding
    whitespace removed; anything else is rendered with `str`. */
module CharArrays {
  import opened Wrappers
  import Masks

  type Byte = x: int | 0 <= x < 256

  /** One element of a character array: a one-byte `bytes` value (dtype S1)
      or a one-character `str` value (dtype U1). */
  datatype CharElem = ByteChar(b: Byte) | TextChar(c: char)

  /** The input: an array whose dtype is character-typed, holding its
      elements, or any other array, of which only its `str` rendering
      matters here. */
  datatype CharArray = CharTyped(elems: seq<CharElem>) | NotCharTyped(rendering: string)

  /** The characters for which Python's `str.isspace` holds, which are the
      ones `str.strip()` removes. */
  predicate IsSpace(c: char) {
    c == ' ' || ('\t' <= c <= '\r') || ('\U{1c}' <= c <= '\U{1f}') ||
    c == '\U{85}' || c == '\U{a0}' || c == '\U{1680}' || ('\U{2000}' <= c <= '\U{200a}') ||
    c == '\U{2028}' || c == '\U{2029}' || c == '\U{202f}' || c == '\U{205f}' || c == '\U{3000}'
  }

  /** None of the given characters at either end. */
  predicate IsStripped(s: string, chars: char -> bool) {
    s == [] || (!chars(s[0]) && !chars(s[|s| - 1]))
  }

  /** The first index from i on whose character is not one of chars (the
      forward scan of `str.strip`). */
  function SkipForward(s: string, chars: char -> bool, i: nat): (e: nat)
    requires i <= |s|
    ensures i <= e <= |s|
    ensures forall k :: i <= k < e ==> chars(s[k])
    ensures e < |s| ==> !chars(s[e])
    decreases |s| - i
  {
    if i == |s| || !chars(s[i]) then i else SkipForward(s, chars, i + 1)
  }

  /** The end of the text before j once a trailing run of chars is removed,
      not going below lo (the backward scan of `str.strip`). */
  function SkipBackward(s: string, chars: char -> bool, lo: nat, j: nat): (e: nat)
    requires lo <= j <= |s|
    ensures lo <= e <= j
    ensures forall k :: e <= k < j ==> chars(s[k])
    ensures lo < e ==> !chars(s[e - 1])
  {
    if j == lo || !chars(s[j - 1]) then j else SkipBackward(s, chars, lo, j - 1)
  }

  /** `s.strip(chars)`, with the set of characters given as a predicate;
      `s.strip()` is `Strip(s, IsSpace)`. */
  function Strip(s: string, chars: char -> bool): (r: string)
    ensures |r| <= |s| && IsStripped(r, chars)
  {
    var i := SkipForward(s, chars, 0);
    var j := SkipBackward(s, chars, i, |s|);
    assert i < j ==> s[i..j][0] == s[i] && s[i..j][j - i - 1] == s[j - 1];
    s[i..j]
  }

  /** What strip removes are the given characters, at both ends only: the
      result is a slice s[i..j] with only such characters outside it and
      none of them at either of its ends. */
  lemma StripSpec(s: string, chars: char -> bool)
    ensures exists i, j :: (0 <= i <= j <= |s| && Strip(s, chars) == s[i..j] &&
                            (forall k :: 0 <= k < i ==> chars(s[k])) &&
                            (forall k :: j <= k < |s| ==> chars(s[k])))
    ensures IsStripped(Strip(s, chars), chars)
  {
    var i := SkipForward(s, chars, 0);
    var j := SkipBackward(s, chars, i, |s|);
    assert Strip(s, chars) == s[i..j];
  }

  /** A string with none of the characters at either end is left unchanged
      by strip, and only such a string is. */
  lemma StripFixesStripped(s: string, chars: char -> bool)
    ensures Strip(s, chars) == s <==> IsStripped(s, chars)
  {
    if IsStripped(s, chars) && s != [] {
      assert SkipForward(s, chars, 0) == 0;
      assert SkipBackward(s, chars, 0, |s|) == |s|;
      assert s[0..|s|] == s;
    }
  }

  /** Stripping twice is stripping once. */
  lemma StripIdempotent(s: string, chars: char -> bool)
    ensures Strip(Strip(s, chars), chars) == Strip(s, chars)
  {
    StripFixesStripped(Strip(s, chars), chars);
  }

  /** The character an element stands for. */
  function ElemChar(e: CharElem): char {
    match e
    case ByteChar(b) => b as char
    case TextChar(c) => c
  }

  /** NumPy drops trailing NUL characters from `bytes` and `str` elements,
      so a NUL element reads as the empty string. */
  predicate IsNul(e: CharElem) {
    ElemChar(e) == '\0'
  }

  predicate NonNul(e: CharElem) {
    !IsNul(e)
  }

  /** One element of the comprehension at line 26: `c.decode("utf-8")` for
      bytes (a single byte of 0x80 or more is not UTF-8 on its own) and
      `str(c)` for text. */
  function DecodeElem(e: CharElem): (r: Result<string>)
    ensures r.Ok? <==> !(e.ByteChar? && e.b >= 0x80)
  {
    if IsNul(e) then Ok("")
    else match e
      case ByteChar(b) => if b < 0x80 then Ok([b as char]) else Err(UnicodeDecodeError)
      case TextChar(c) => Ok([c])
  }

  /** `"".join([...])` over the comprehension: it succeeds exactly when every
      element decodes, and then the text is the characters of the non-NUL
      elements, in order. */
  function Join(es: seq<CharElem>): (r: Result<string>)
    ensures r.Ok? <==> forall i :: 0 <= i < |es| ==> DecodeElem(es[i]).Ok?
    ensures r.Err? ==> r.error == UnicodeDecodeError
  {
    if |es| == 0 then Ok("")
    else
      match DecodeElem(es[0])
      case Err(e) => Err(e)
      case Ok(h) =>
        match Join(es[1..])
        case Err(e) => Err(e)
        case Ok(t) => Ok(h + t)
  }

  /** The characters of a sequence of elements. */
  function CharsOf(es: seq<CharElem>): (s: string)
    ensures |s| == |es| && forall k :: 0 <= k < |es| ==> s[k] == ElemChar(es[k])
  {
    seq(|es|, k requires 0 <= k < |es| => ElemChar(es[k]))
  }

  /** The joined text is the characters of the non-NUL elements, in order. */
  lemma {:induction false} JoinChars(es: seq<CharElem>)
    requires Join(es).Ok?
    ensures Join(es).value == CharsOf(Masks.Filter(es, NonNul))
  {
    if |es| > 0 {
      var e, rest := es[0], es[1..];
      var kept := Masks.Filter(rest, NonNul);
      assert es == [e] + rest;
      Masks.FilterCons(e, rest, NonNul);
      JoinChars(rest);
      assert Join(es).value == DecodeElem(e).value + CharsOf(kept);
      if NonNul(e) {
        assert Masks.Filter(es, NonNul) == [e] + kept;
        CharsOfCons(e, kept);
      } else {
        assert Masks.Filter(es, NonNul) == kept;
      }
    }
  }

  lemma CharsOfCons(e: CharElem, es: seq<CharElem>)
    ensures CharsOf([e] + es) == [ElemChar(e)] + CharsOf(es)
  {
    assert forall k :: 1 <= k < |es| + 1 ==> ([e] + es)[k] == es[k - 1];
  }

  /** `decode_char_array` (lines 21-29). */
  function DecodeCharArray(a: CharArray): (r: Result<string>)
    ensures r.Err? <==> a.CharTyped? && exists i :: 0 <= i < |a.elems| && a.elems[i].ByteChar? && a.elems[i].b >= 0x80
    ensures r.Err? ==> r.error == UnicodeDecodeError
    ensures r.Ok? && a.CharTyped? ==> IsStripped(r.value, IsSpace)
  {
    match a
    case NotCharTyped(rendering) => Ok(rendering)
    case CharTyped(es) =>
      match Join(es)
      case Err(e) => Err(e)
      case Ok(s) => Ok(Strip(s, IsSpace))
  }

  /** A character array decodes exactly when none of its bytes is 0x80 or
      more; the result is the joined text stripped, and so has no
      whitespace at either end. */
  lemma DecodeCharArraySpec(es: seq<CharElem>)
    ensures DecodeCharArray(CharTyped(es)).Ok? <==>
      forall i :: 0 <= i < |es| ==> !(es[i].ByteChar? && es[i].b >= 0x80)
    ensures DecodeCharArray(CharTyped(es)).Ok? ==>
      Join(es).Ok? && DecodeCharArray(CharTyped(es)).value == Strip(Join(es).value, IsSpace) &&
      IsStripped(DecodeCharArray(CharTyped(es)).value, IsSpace)
  {
  }

  /** The text elements of a string. */
  function TextChars(s: string): (es: seq<CharElem>)
    ensures |es| == |s| && forall i :: 0 <= i < |s| ==> es[i] == TextChar(s[i])
  {
    seq(|s|, i requires 0 <= i < |s| => TextChar(s[i]))
  }

  /** Joining the characters of a NUL-free string gives the string back. */
  lemma {:induction false} JoinText(s: string)
    requires forall i :: 0 <= i < |s| ==> s[i] != '\0'
    ensures Join(TextChars(s)) == Ok(s)
  {
    if |s| > 0 {
      var es := TextChars(s);
      assert es[1..] == TextChars(s[1..]);
      JoinText(s[1..]);
      assert s == [s[0]] + s[1..];
    }
  }

  /** An already stripped, NUL-free text array decodes to itself, and a
      string with whitespace at an end never does. */
  lemma StrippedTextRoundTrip(s: string)
    requires forall i :: 0 <= i < |s| ==> s[i] != '\0'
    ensures DecodeCharArray(CharTyped(TextChars(s))) == Ok(s) <==> IsStripped(s, IsSpace)
  {
    JoinText(s);
    StripFixesStripped(s, IsSpace);
  }
}
