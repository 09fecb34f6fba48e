/** Byte ranges: the Range header a client sends (section 14.1.2 of RFC 9110) and the bytes a
server answers with. */
module ByteRange {
  import opened Numerals
  import opened Wrappers

  datatype Range = Range(start: nat, end: nat, length: nat, partial: bool)

  datatype RangeError = Malformed | Unsatisfiable

  // The header ---------------------------------------------------------------------------------

  predicate IsSpace(c: char) {
    c in {' ', '\t', '\n', '\r'} || c as int in {11, 12, 28, 29, 30, 31, 133, 160}
  }

  function StripLeft(s: string): string {
    if s != [] && IsSpace(s[0]) then StripLeft(s[1..]) else s
  }

  function StripRight(s: string): string {
    if s != [] && IsSpace(s[|s| - 1]) then StripRight(s[..|s| - 1]) else s
  }

  function Strip(s: string): string {
    StripRight(StripLeft(s))
  }

  function DigitPrefix(s: string): (n: nat)
    ensures n <= |s| && AllDigits(s[..n])
    ensures n < |s| ==> !IsDigit(s[n])
  {
    if s != [] && IsDigit(s[0]) then
      var n := 1 + DigitPrefix(s[1..]);
      assert s[..n] == [s[0]] + s[1..][..n - 1];
      n
    else 0
  }

  const UNIT := "bytes="

  // Matches "bytes=first-" or "bytes=first-last", the whole string.
  function MatchRange(s: string): Option<(nat, Option<nat>)> {
    if !(UNIT <= s) then None else
      var rest := s[|UNIT|..];
      var n := DigitPrefix(rest);
      if n == 0 || n == |rest| || rest[n] != '-' then None else
        var tail := rest[n + 1..];
        if !AllDigits(tail) then None
        else Some((ParseNat(rest[..n]), if tail == [] then None else Some(ParseNat(tail))))
  }

  function Min(a: nat, b: nat): nat {
    if a < b then a else b
  }

  function ParseByteRange(header: Option<string>, size: nat): (r: Result<Range, RangeError>)
    ensures r.Success? && size > 0 ==> r.value.start <= r.value.end < size && r.value.length == r.value.end - r.value.start + 1
    ensures r.Success? && size == 0 ==> r.value == Range(0, 0, 0, r.value.partial)
    ensures r.Success? && !r.value.partial ==> r.value.start == 0 && r.value.length == size
  {
    if header.None? || Strip(header.value) == [] then
      Success(Range(0, if size > 0 then size - 1 else 0, size, false))
    else
      var m := MatchRange(Strip(header.value));
      if m.None? then Failure(Malformed) else
        var (start, last) := m.value;
        if size == 0 then (if start == 0 then Success(Range(0, 0, 0, true)) else Failure(Unsatisfiable))
        else if start >= size then Failure(Unsatisfiable)
        else if last.Some? && last.value < start then Failure(Unsatisfiable)
        else
          var end := if last.Some? then Min(last.value, size - 1) else size - 1;
          Success(Range(start, end, end - start + 1, true))
  }

  // The header a resuming client sends.
  function OpenRange(offset: nat): string {
    UNIT + FormatNat(offset) + "-"
  }

  function ClosedRange(first: nat, last: nat): string {
    UNIT + FormatNat(first) + "-" + FormatNat(last)
  }

  lemma {:induction false} DigitPrefixOf(d: string, rest: string)
    requires AllDigits(d) && rest != [] && !IsDigit(rest[0])
    ensures DigitPrefix(d + rest) == |d|
  {
    if d != [] {
      assert (d + rest)[1..] == d[1..] + rest;
      DigitPrefixOf(d[1..], rest);
    } else {
      assert d + rest == rest;
    }
  }

  lemma MatchNumbers(first: string, last: string)
    requires AllDigits(first) && first != [] && AllDigits(last)
    ensures MatchRange(UNIT + first + "-" + last) ==
      Some((ParseNat(first), if last == [] then None else Some(ParseNat(last))))
  {
    var s := UNIT + first + "-" + last;
    var rest := s[|UNIT|..];
    assert rest == first + ("-" + last);
    DigitPrefixOf(first, "-" + last);
    assert rest[..|first|] == first && rest[|first| + 1..] == last;
  }

  // A range header: the unit, a first position, a dash, and a last position or nothing.
  predicate RangeForm(s: string, first: string, last: string) {
    AllDigits(first) && first != [] && AllDigits(last) && s == "bytes=" + first + "-" + last
  }

  // Exactly the texts of that form are understood.
  lemma MatchRangeIff(s: string)
    ensures MatchRange(s).Some? <==> exists first, last :: RangeForm(s, first, last)
  {
    if MatchRange(s).Some? {
      var rest := s[|UNIT|..];
      var n := DigitPrefix(rest);
      assert rest == rest[..n] + "-" + rest[n + 1..];
      assert s == UNIT + rest;
      assert RangeForm(s, rest[..n], rest[n + 1..]);
    }
    if first, last :| RangeForm(s, first, last) {
      MatchNumbers(first, last);
    }
  }

  predicate Blank(s: string) {
    forall i :: 0 <= i < |s| ==> IsSpace(s[i])
  }

  lemma {:induction false} StripLeftBlank(a: string, s: string)
    requires Blank(a)
    ensures StripLeft(a + s) == StripLeft(s)
  {
    if a == [] {
      assert a + s == s;
    } else {
      assert (a + s)[1..] == a[1..] + s;
      StripLeftBlank(a[1..], s);
    }
  }

  lemma {:induction false} StripRightBlank(s: string, b: string)
    requires Blank(b)
    ensures StripRight(s + b) == StripRight(s)
  {
    if b == [] {
      assert s + b == s;
    } else {
      assert (s + b)[..|s + b| - 1] == s + b[..|b| - 1];
      StripRightBlank(s, b[..|b| - 1]);
    }
  }

  // White space around a header makes no difference, and a header of nothing else is no header.
  lemma SpacesIgnored(a: string, h: string, b: string, size: nat)
    requires Blank(a) && Blank(b) && (h == [] || (!IsSpace(h[0]) && !IsSpace(h[|h| - 1])))
    ensures ParseByteRange(Some(a + h + b), size) == ParseByteRange(if h == [] then None else Some(h), size)
  {
    assert a + h + b == a + (h + b);
    StripLeftBlank(a, h + b);
    if h == [] {
      assert h + b == b && b + [] == b;
      StripLeftBlank(b, []);
    } else {
      assert StripLeft(h + b) == h + b && StripRight(h) == h;
      StripRightBlank(h, b);
      NothingToStrip(h);
    }
  }

  // Without a header the answer is the whole asset, and a header of another form is malformed.
  lemma WholeOrMalformed(s: string, size: nat)
    requires s != [] && !IsSpace(s[0]) && !IsSpace(s[|s| - 1])
    ensures ParseByteRange(None, size) == Success(Range(0, if size == 0 then 0 else size - 1, size, false))
    ensures ParseByteRange(Some(s), size) == Failure(Malformed) <==> !exists first, last :: RangeForm(s, first, last)
  {
    NothingToStrip(s);
    MatchRangeIff(s);
  }

  lemma NothingToStrip(s: string)
    requires s != [] && !IsSpace(s[0]) && !IsSpace(s[|s| - 1])
    ensures Strip(s) == s
  {
  }

  // What a client asks for with an open range is what the server understands.
  lemma OpenRangeUnderstood(offset: nat, size: nat)
    ensures ParseByteRange(Some(OpenRange(offset)), size) ==
      if offset < size then Success(Range(offset, size - 1, size - offset, true))
      else if size == 0 && offset == 0 then Success(Range(0, 0, 0, true))
      else Failure(Unsatisfiable)
  {
    var h := OpenRange(offset);
    assert h[0] == 'b' && h[|h| - 1] == '-';
    NothingToStrip(h);
    assert h == UNIT + FormatNat(offset) + "-" + [];
    MatchNumbers(FormatNat(offset), []);
    NumeralRoundTrip(offset);
  }

  // A closed range is clipped to the asset and refused when it is empty or starts past the end.
  lemma ClosedRangeUnderstood(first: nat, last: nat, size: nat)
    requires size > 0
    ensures ParseByteRange(Some(ClosedRange(first, last)), size) ==
      if first <= last && first < size then Success(Range(first, Min(last, size - 1), Min(last, size - 1) - first + 1, true))
      else Failure(Unsatisfiable)
  {
    var h := ClosedRange(first, last);
    var tail := FormatNat(last);
    assert h[0] == 'b' && h[|h| - 1] == tail[|tail| - 1];
    NothingToStrip(h);
    MatchNumbers(FormatNat(first), FormatNat(last));
    NumeralRoundTrip(first);
    NumeralRoundTrip(last);
  }
}
