/** Turning the text of one sensor's `w1_slave` file into an outcome for the sampler
    (w1_therm_exporter.go, lines 55 to 85). */
module Payload {
  import opened Wrappers
  import opened GoArith
  import opened Text
  import opened Strconv

  /** The driver writes this token when the reading's CRC matched. */
  const ChecksumToken: string := "YES"
  /** The token that introduces the raw temperature value. */
  const ValueMarker: string := "t="
  /** The raw value is divided by this, dropping its last two digits, to give tenths of a degree. */
  const ScaleDivisor: int := 100

  /** What one payload means for the sampler's maps. */
  datatype Outcome =
    | ChecksumFail             // no checksum token: the sensor's gauge entry is dropped
    | Skip                     // no usable value: nothing changes
    | Reading(decidegrees: int) // a temperature in tenths of a degree Celsius

  /** Element 1 of `strings.SplitAfter(payload, "t=")`, None when the split has fewer than two parts. */
  function ValueField(payload: string): (f: Option<string>)
    ensures f.None? <==> !Contains(payload, ValueMarker)
  {
    var parts := SplitAfter(payload, ValueMarker);
    if |parts| < 2 then None else Some(parts[1])
  }

  /** The value field is the text after the first marker, up to and including the next marker if any. */
  lemma ValueFieldAfterMarker(payload: string)
    requires Contains(payload, ValueMarker)
    ensures var rest := payload[Find(payload, ValueMarker).value + |ValueMarker|..];
            ValueField(payload) ==
              Some(match Find(rest, ValueMarker)
                   case Some(j) => rest[..j + |ValueMarker|]
                   case None => rest)
  {
    var m := Find(payload, ValueMarker).value;
    var rest := payload[m + |ValueMarker|..];
    var tail := SplitAfter(rest, ValueMarker);
    assert SplitAfter(payload, ValueMarker) == [payload[..m + |ValueMarker|]] + tail;
    assert tail[0] == (match Find(rest, ValueMarker)
                       case Some(j) => rest[..j + |ValueMarker|]
                       case None => rest);
  }

  /** Newline, carriage return and tab: the characters the sampler strips from the value field. */
  predicate IsLayout(c: char)
  {
    c == '\n' || c == '\r' || c == '\t'
  }

  /** The three `strings.Replace` calls, in the order the sampler makes them. */
  function Sanitize(f: string): (r: string)
    ensures forall i :: 0 <= i < |r| ==> !IsLayout(r[i])
    ensures multiset(r) == multiset(f)['\n' := 0]['\r' := 0]['\t' := 0]
  {
    var r := RemoveChar(RemoveChar(RemoveChar(f, '\n'), '\r'), '\t');
    assert forall i :: 0 <= i < |r| ==> multiset(r)[r[i]] > 0;
    r
  }

  /** Single-pass reference: keep every character that is not layout, in order. */
  function DropLayout(f: string): string
  {
    if |f| == 0 then [] else (if IsLayout(f[0]) then [] else [f[0]]) + DropLayout(f[1..])
  }

  /** The three removals together keep exactly the non-layout characters, in their order. */
  lemma {:induction false} SanitizeIsDropLayout(f: string)
    ensures Sanitize(f) == DropLayout(f)
    decreases |f|
  {
    if |f| > 0 {
      var head, tail := [f[0]], f[1..];
      assert f == head + tail;
      RemoveCharConcat(head, tail, '\n');
      var n1, n2 := RemoveChar(head, '\n'), RemoveChar(tail, '\n');
      RemoveCharConcat(n1, n2, '\r');
      var r1, r2 := RemoveChar(n1, '\r'), RemoveChar(n2, '\r');
      RemoveCharConcat(r1, r2, '\t');
      SanitizeIsDropLayout(tail);
    }
  }

  /** The published temperature in tenths of a degree: `raw / 100` in Go's truncating division. */
  function Decidegrees(raw: int): (d: int)
    ensures Abs(d) <= Abs(raw) / ScaleDivisor
    ensures raw >= 0 ==> d * ScaleDivisor <= raw < (d + 1) * ScaleDivisor
    ensures raw <= 0 ==> (d - 1) * ScaleDivisor < raw <= d * ScaleDivisor
  {
    TruncDiv(raw, ScaleDivisor)
  }

  /** The sampler's reading of one payload. */
  function Parse(payload: string): (o: Outcome)
    ensures o.ChecksumFail? <==> !Contains(payload, ChecksumToken)
    ensures Contains(payload, ChecksumToken) && !Contains(payload, ValueMarker) ==> o == Skip
    ensures o.Reading? ==> Contains(payload, ValueMarker)
    ensures o.Reading? ==> Abs(o.decidegrees) <= MaxInt64 / ScaleDivisor
  {
    if !Contains(payload, ChecksumToken) then ChecksumFail
    else
      match ValueField(payload)
      case None => Skip
      case Some(field) =>
        match Atoi(Sanitize(field))
        case None => Skip
        case Some(raw) =>
          TruncDivInt64(raw, ScaleDivisor);
          Reading(Decidegrees(raw))
  }

  /** For every payload with the checksum token and a value marker, the outcome is
      fixed by the value field with its layout characters dropped: a sign and
      digits naming a 64-bit number give that number divided by 100 toward zero;
      anything else (an empty field, a lone sign, a space, a letter, an
      out-of-range number) is skipped. */
  lemma ParseValue(payload: string)
    requires Contains(payload, ChecksumToken) && Contains(payload, ValueMarker)
    ensures var f := DropLayout(ValueField(payload).value);
            Parse(payload) ==
              if IsDecimal(f) && IsInt64(DecimalValue(f))
              then Reading(TruncDiv(DecimalValue(f), ScaleDivisor))
              else Skip
  {
    SanitizeIsDropLayout(ValueField(payload).value);
  }

  /** A value field holding any character that is neither a digit, a sign nor
      layout (a space, a letter, a decimal point) is skipped. */
  lemma ForeignCharSkips(payload: string, c: char)
    requires Contains(payload, ChecksumToken)
    requires ValueField(payload).Some? && c in ValueField(payload).value
    requires !IsDigit(c) && !IsSign(c) && !IsLayout(c)
    ensures Parse(payload) == Skip
  {
    var f := ValueField(payload).value;
    SanitizeKeeps(f, c);
    AtoiRejects(Sanitize(f), c);
  }

  /** Sanitizing keeps every character that is not layout. */
  lemma SanitizeKeeps(f: string, c: char)
    requires c in f && !IsLayout(c)
    ensures c in Sanitize(f)
  {
    assert multiset(f)[c] > 0;
    assert multiset(Sanitize(f))[c] == multiset(f)[c];
  }

  /** A second marker ends the value field, so the field cannot parse: the payload is skipped. */
  lemma SecondMarkerSkips(payload: string)
    requires Contains(payload, ChecksumToken)
    requires Contains(payload, ValueMarker)
    requires Contains(payload[Find(payload, ValueMarker).value + |ValueMarker|..], ValueMarker)
    ensures Parse(payload) == Skip
  {
    ValueFieldAfterMarker(payload);
    var rest := payload[Find(payload, ValueMarker).value + |ValueMarker|..];
    var j := Find(rest, ValueMarker).value;
    var field := rest[..j + |ValueMarker|];
    assert field[j] == 't';
    ForeignCharSkips(payload, 't');
  }

  /** The scratchpad bytes and CRC as the driver prints them: lower-case hex and spaces. */
  predicate IsHexText(s: string)
  {
    forall i :: 0 <= i < |s| ==> ('0' <= s[i] <= '9' || 'a' <= s[i] <= 'f' || s[i] == ' ')
  }

  /** The two lines the w1_therm driver writes for one conversion: the scratchpad and
      CRC with `YES` or `NO`, then the scratchpad again and `t=` with the raw value. */
  function DriverText(scratch: string, crc: string, crcOk: bool, raw: int): string
  {
    scratch + " : crc=" + crc + (if crcOk then " YES\n" else " NO\n") + scratch + " t=" + Itoa(raw) + "\n"
  }

  lemma HexHasNoTokens(s: string)
    requires IsHexText(s)
    ensures 't' !in s && 'Y' !in s
  {
  }

  lemma DecimalChars(n: int)
    ensures forall i :: 0 <= i < |Itoa(n)| ==> IsDigit(Itoa(n)[i]) || Itoa(n)[i] == '-'
  {
    var s := Itoa(n);
    assert s == Magnitude(s) || s == [s[0]] + Magnitude(s);
  }

  lemma DecimalHasNoTokens(n: int)
    ensures 't' !in Itoa(n) && 'Y' !in Itoa(n)
    ensures '\n' !in Itoa(n) && '\r' !in Itoa(n) && '\t' !in Itoa(n)
  {
    DecimalChars(n);
  }

  /** The value the driver writes after the marker sanitizes to the decimal text alone. */
  lemma SanitizeDecimalLine(raw: int)
    ensures Sanitize(Itoa(raw) + "\n") == Itoa(raw)
  {
    var d := Itoa(raw);
    DecimalHasNoTokens(raw);
    RemoveCharConcat(d, "\n", '\n');
    assert RemoveChar("\n", '\n') == [];
    assert RemoveChar(d + "\n", '\n') == d;
  }

  /** What the driver writes with `YES` reads as the raw value divided by 100 toward zero. */
  lemma DriverTextParseOk(scratch: string, crc: string, raw: int)
    requires IsHexText(scratch) && IsHexText(crc) && IsInt64(raw)
    ensures Parse(DriverText(scratch, crc, true, raw)) == Reading(TruncDiv(raw, ScaleDivisor))
  {
    DriverTextChecksum(scratch, crc, raw);
    DriverTextField(scratch, crc, raw);
    SanitizeDecimalLine(raw);
    AtoiItoa(raw);
  }

  lemma DriverTextChecksum(scratch: string, crc: string, raw: int)
    ensures Contains(DriverText(scratch, crc, true, raw), ChecksumToken)
  {
    var head := scratch + " : crc=" + crc + " ";
    var tail := "\n" + scratch + " t=" + Itoa(raw) + "\n";
    assert DriverText(scratch, crc, true, raw) == head + "YES" + tail;
    ContainsInfix(head, ChecksumToken, tail, ChecksumToken);
  }

  lemma DriverTextField(scratch: string, crc: string, raw: int)
    requires IsHexText(scratch) && IsHexText(crc)
    ensures ValueField(DriverText(scratch, crc, true, raw)) == Some(Itoa(raw) + "\n")
  {
    HexHasNoTokens(scratch);
    HexHasNoTokens(crc);
    DecimalHasNoTokens(raw);
    var value := Itoa(raw) + "\n";
    var lead := scratch + " : crc=" + crc + " YES\n" + scratch + " ";
    var text := lead + ("t=" + value);
    assert DriverText(scratch, crc, true, raw) == text;
    FindAfterPrefix(lead, "t=" + value, ValueMarker);
    assert text[|lead| + 2..] == value;
    NoLeadCharNoToken(value, ValueMarker);
    ValueFieldAfterMarker(text);
  }

  /** What the driver writes with `NO` is a checksum failure. */
  lemma DriverTextParseBad(scratch: string, crc: string, raw: int)
    requires IsHexText(scratch) && IsHexText(crc)
    ensures Parse(DriverText(scratch, crc, false, raw)) == ChecksumFail
  {
    HexHasNoTokens(scratch);
    HexHasNoTokens(crc);
    DecimalHasNoTokens(raw);
    NoLeadCharNoToken(DriverText(scratch, crc, false, raw), ChecksumToken);
  }
}
