/**
 * The frame decoder of the viewer: one line received from the sensor
 * becomes either a complete frame or "no frame".  The line is stripped; a
 * blank line is no frame; otherwise it is split at commas, blank fields are
 * dropped, every remaining field must be a numeral, and there must be
 * exactly 192 of them.  The values are laid out row-major as 12 rows of 16
 * and the result is transposed, so a decoded frame has 16 rows of 12.
 */
module FrameDecoder {
  import opened Wrappers
  import opened Text
  import opened Numeral
  import opened Grids

  /** The field separator of the line protocol. */
  const Delimiter: char := ','

  /** The fields that are not blank, in order (`[x for x in fields if x.strip()]`). */
  function Retained(fields: seq<string>): (kept: seq<string>)
    ensures |kept| <= |fields|
    ensures forall i :: 0 <= i < |kept| ==> !IsBlank(kept[i]) && kept[i] in fields
  {
    if fields == [] then []
    else (if IsBlank(fields[0]) then [] else [fields[0]]) + Retained(fields[1..])
  }

  /**
   * The value of every field (`[float(x) for x in fields]`), or nothing as
   * soon as one field is not a numeral.  The decoder passes `ParseNum`; the
   * facts about the list itself hold for any field parser.
   */
  function ParseAll(fields: seq<string>, parse: string -> Option<real>): (r: Option<seq<real>>)
    ensures r.Some? <==> forall i :: 0 <= i < |fields| ==> parse(fields[i]).Some?
    ensures r.Some? ==> |r.value| == |fields|
    ensures r.Some? ==> forall i :: 0 <= i < |fields| ==> r.value[i] == parse(fields[i]).value
  {
    if fields == [] then Some([])
    else match parse(fields[0])
      case None => None
      case Some(v) =>
        match ParseAll(fields[1..], parse)
        case None => None
        case Some(vs) => Some([v] + vs)
  }

  /** The non-blank comma-separated fields of a line, whitespace around the line removed. */
  function Fields(line: string): (fields: seq<string>)
    ensures forall i :: 0 <= i < |fields| ==> !IsBlank(fields[i]) && Delimiter !in fields[i]
  {
    Retained(Split(Strip(line), Delimiter))
  }

  /**
   * `get_temperature_data` on a received line.  A frame is decoded exactly
   * when the line has 192 non-blank fields and every one is a numeral; the
   * value of field `r * 16 + c` then lands at row `c`, column `r`.
   */
  function Decode(line: string): (frame: Option<Grid>)
    ensures IsBlank(line) ==> frame == None
    ensures frame.Some? <==>
              |Fields(line)| == FrameSize &&
              forall i :: 0 <= i < |Fields(line)| ==> ParseNum(Fields(line)[i]).Some?
    ensures frame.Some? ==>
              IsGrid(frame.value, Cols, Rows) &&
              forall r, c :: 0 <= r < Rows && 0 <= c < Cols ==>
                frame.value[c][r] == ParseNum(Fields(line)[r * Cols + c]).value
  {
    var text := Strip(line);
    if text == [] then
      assert Split(text, Delimiter) == [[]];
      None
    else
      match ParseAll(Retained(Split(text, Delimiter)), ParseNum)
      case None => None
      case Some(values) =>
        if |values| != FrameSize then None
        else Some(Transpose(Reshape(values), Rows, Cols))
  }

  // ---------------------------------------------------------------------------
  // Blank fields and surrounding whitespace

  lemma {:induction false} RetainedAppend(a: seq<string>, b: seq<string>)
    ensures Retained(a + b) == Retained(a) + Retained(b)
  {
    if a == [] {
      assert a + b == b;
    } else {
      assert (a + b)[1..] == a[1..] + b;
      RetainedAppend(a[1..], b);
    }
  }

  lemma {:induction false} RetainedAllFilled(fields: seq<string>)
    requires forall i :: 0 <= i < |fields| ==> !IsBlank(fields[i])
    ensures Retained(fields) == fields
  {
    if fields != [] {
      RetainedAllFilled(fields[1..]);
    }
  }

  lemma {:induction false} ParseAllAppend(a: seq<string>, b: seq<string>, parse: string -> Option<real>)
    ensures ParseAll(a + b, parse) ==
              if ParseAll(a, parse).Some? && ParseAll(b, parse).Some?
              then Some(ParseAll(a, parse).value + ParseAll(b, parse).value)
              else None
  {
    if a == [] {
      assert a + b == b;
      if ParseAll(b, parse).Some? { assert [] + ParseAll(b, parse).value == ParseAll(b, parse).value; }
    } else {
      assert (a + b)[0] == a[0];
      assert (a + b)[1..] == a[1..] + b;
      ParseAllAppend(a[1..], b, parse);
      if parse(a[0]).Some? && ParseAll(a[1..], parse).Some? && ParseAll(b, parse).Some? {
        var v, vr, vb := parse(a[0]).value, ParseAll(a[1..], parse).value, ParseAll(b, parse).value;
        assert [v] + (vr + vb) == ([v] + vr) + vb;
      }
    }
  }

  /** The outcome depends only on the stripped text: whitespace around a line changes nothing. */
  lemma DecodeIgnoresSurroundingSpace(w1: string, line: string, w2: string)
    requires IsBlank(w1) && IsBlank(w2)
    ensures Decode(w1 + line + w2) == Decode(line)
    ensures Decode(Strip(line)) == Decode(line)
  {
    StripIgnoresPadding(w1, line, w2);
    StripIdempotent(line);
  }

  /** Two lines whose fields have the same values decode alike. */
  lemma DecodeByFieldValues(x: string, y: string)
    requires IsBlank(x) == IsBlank(y)
    requires ParseAll(Fields(x), ParseNum) == ParseAll(Fields(y), ParseNum)
    ensures Decode(x) == Decode(y)
  {
  }

  /** A doubled comma is read as a single one: the empty field between them is dropped. */
  lemma DoubledDelimiterIgnored(a: string, b: string)
    ensures Decode(a + ",," + b) == Decode(a + "," + b)
  {
    DoubledDelimiterFields(a, b);
    assert !IsBlank(a + "," + b) by { assert (a + "," + b)[|a|] == Delimiter; }
    assert !IsBlank(a + ",," + b) by { assert (a + ",," + b)[|a|] == Delimiter; }
    DecodeByFieldValues(a + ",," + b, a + "," + b);
  }

  lemma DoubledDelimiterFields(a: string, b: string)
    ensures Fields(a + ",," + b) == Fields(a + "," + b)
  {
    StripAround(a, ",,", b);
    StripAround(a, ",", b);
    RetainedDoubled(LStrip(a), RStrip(b));
  }

  lemma RetainedDoubled(x: string, y: string)
    ensures Retained(Split(x + ",," + y, Delimiter)) == Retained(Split(x + "," + y, Delimiter))
  {
    SplitDoubled(x, y);
    var fx, fy := Split(x, Delimiter), Split(y, Delimiter);
    RetainedAppend(fx, [[]] + fy);
    RetainedDropsBlank([], fy);
    RetainedAppend(fx, fy);
  }

  lemma RetainedDropsBlank(f: string, rest: seq<string>)
    requires IsBlank(f)
    ensures Retained([f] + rest) == Retained(rest)
  {
    assert ([f] + rest)[1..] == rest;
  }

  lemma SplitDoubled(x: string, y: string)
    ensures Split(x + ",," + y, Delimiter) == Split(x, Delimiter) + ([[]] + Split(y, Delimiter))
    ensures Split(x + "," + y, Delimiter) == Split(x, Delimiter) + Split(y, Delimiter)
  {
    assert x + ",," + y == x + [Delimiter] + ([Delimiter] + y);
    assert x + "," + y == x + [Delimiter] + y;
    SplitAround(x, [Delimiter] + y, Delimiter);
    SplitAround(x, y, Delimiter);
    var e: string := [];
    SplitAround(e, y, Delimiter);
    assert e + [Delimiter] + y == [Delimiter] + y;
  }

  /**
   * A comma at the end of a line, before any trailing whitespace, changes
   * nothing, as long as the whitespace a non-blank line ends with is padding
   * `float()` strips.
   */
  lemma TrailingDelimiterIgnored(line: string, w: string)
    requires IsBlank(w) && (!IsBlank(line) ==> SeparatorFree(line[|RStrip(line)|..]))
    ensures Decode(line + "," + w) == Decode(line)
  {
    var l := LStrip(line);
    var s := RStrip(l);
    assert !IsBlank(line + "," + w) by { assert (line + "," + w)[|line|] == Delimiter; }
    StripAround(line, ",", w);
    assert RStrip(w) == [];
    assert l + "," + RStrip(w) == l + [Delimiter];
    assert Fields(line + "," + w) == Retained(Split(l + [Delimiter], Delimiter));
    RStripPrefix(l);
    var p := l[|s|..];
    if s == [] {
      assert IsBlank(line);
      assert l == [];
      SplitLoneDelimiter();
      assert ParseAll(Fields(line + "," + w), ParseNum) == Some([]);
    } else {
      TrailingSpaceAfterLStrip(line);
      TrailingDelimiterFields(s, p);
      assert Fields(line) == Retained(Split(s, Delimiter));
      DecodeByFieldValues(line + "," + w, line);
    }
  }

  lemma SplitLoneDelimiter()
    ensures Retained(Split([Delimiter], Delimiter)) == []
  {
    var e: string := [];
    SplitAround(e, e, Delimiter);
    assert e + [Delimiter] + e == [Delimiter];
    assert Retained([e, e]) == [];
  }

  /** The fields of a stripped line with padding `p` and a comma appended have the same values. */
  lemma TrailingDelimiterFields(s: string, p: string)
    requires IsPadding(p)
    ensures ParseAll(Retained(Split(s + p + [Delimiter], Delimiter)), ParseNum) ==
            ParseAll(Retained(Split(s, Delimiter)), ParseNum)
  {
    var f := Split(s, Delimiter);
    var n := |f| - 1;
    assert Delimiter !in p by {
      forall k | 0 <= k < |p| ensures p[k] != Delimiter {
        assert IsSpace(p[k]);
      }
    }
    SplitExtendLast(s, p, Delimiter);
    var e: string := [];
    SplitAround(s + p, e, Delimiter);
    assert s + p + [Delimiter] + e == s + p + [Delimiter];
    var front, last := f[..n], f[n];
    assert Split(s + p + [Delimiter], Delimiter) == (front + [last + p]) + [[]];
    assert f == front + [last];
    RetainedAppend(front + [last + p], [[]]);
    assert Retained([[]]) == [];
    var kept := Retained(front + [last + p]);
    assert kept + [] == kept;
    assert Retained(Split(s + p + [Delimiter], Delimiter)) == kept;
    LastFieldPadding(front, last, p);
  }

  /** Padding after the last field does not change the values of the fields. */
  lemma LastFieldPadding(front: seq<string>, last: string, p: string)
    requires IsPadding(p)
    ensures ParseAll(Retained(front + [last + p]), ParseNum) == ParseAll(Retained(front + [last]), ParseNum)
  {
    RetainedAppend(front, [last + p]);
    RetainedAppend(front, [last]);
    BlankAppend(last, p);
    ParseNumIgnoresTrailing(last, p);
    ParseAllSingle(last, ParseNum);
    ParseAllSingle(last + p, ParseNum);
    var z := if IsBlank(last) then [] else [last];
    var zp := if IsBlank(last) then [] else [last + p];
    assert Retained([last]) == z;
    assert Retained([last + p]) == zp;
    assert ParseAll(zp, ParseNum) == ParseAll(z, ParseNum);
    ParseAllAppend(Retained(front), zp, ParseNum);
    ParseAllAppend(Retained(front), z, ParseNum);
  }

  lemma ParseAllSingle(f: string, parse: string -> Option<real>)
    ensures ParseAll([f], parse) == match parse(f) case None => None case Some(v) => Some([v])
  {
    assert [f][1..] == [];
    assert ParseAll([], parse) == Some([]);
    match parse(f)
    case None =>
    case Some(v) => assert [v] + [] == [v];
  }

  // ---------------------------------------------------------------------------
  // The sending side of the protocol

  /** Readings sent as integers `x` with `places` decimal places, i.e. `x / 10^places`, as reals. */
  function Reals(values: seq<int>, places: nat): (r: seq<real>)
    ensures |r| == |values|
    ensures forall k :: 0 <= k < |values| ==> r[k] == Scaled(values[k], places)
  {
    seq(|values|, k requires 0 <= k < |values| => Scaled(values[k], places))
  }

  /** The numerals of a frame as the sensor writes them, each with `places` decimal places. */
  function Numerals(values: seq<int>, places: nat): (fields: seq<string>)
    ensures |fields| == |values|
  {
    seq(|values|, k requires 0 <= k < |values| => FormatFixed(values[k], places))
  }

  /** A frame as the sensor sends it: its numerals joined by commas. */
  function EncodeFrame(values: seq<int>, places: nat): string
  {
    Join(Numerals(values, places), Delimiter)
  }

  /**
   * Decoding an encoded frame gives the frame back, in the decoder's
   * orientation, exactly when it has 192 values.
   */
  lemma DecodeEncodeFrame(values: seq<int>, places: nat)
    ensures Decode(EncodeFrame(values, places)) ==
              if |values| == FrameSize then Some(Transpose(Reshape(Reals(values, places)), Rows, Cols)) else None
  {
    if |values| == 0 {
      assert EncodeFrame(values, places) == [];
    } else {
      EncodedFields(values, places);
      NumeralValues(values, places);
    }
  }

  /** The fields of an encoded frame are its numerals. */
  lemma EncodedFields(values: seq<int>, places: nat)
    requires |values| > 0
    ensures !IsBlank(EncodeFrame(values, places)) && Fields(EncodeFrame(values, places)) == Numerals(values, places)
  {
    var fields := Numerals(values, places);
    forall i, j | 0 <= i < |fields| && 0 <= j < |fields[i]|
      ensures |fields[i]| > 0 && IsNumeralChar(fields[i][j])
    {
      assert fields[i] == FormatFixed(values[i], places);
    }
    JoinedNumerals(fields);
  }

  /** Numerals joined by commas split back into the same numerals, none of them blank. */
  lemma JoinedNumerals(fields: seq<string>)
    requires |fields| > 0
    requires forall i :: 0 <= i < |fields| ==> |fields[i]| > 0
    requires forall i, j :: 0 <= i < |fields| && 0 <= j < |fields[i]| ==> IsNumeralChar(fields[i][j])
    ensures !IsBlank(Join(fields, Delimiter)) && Fields(Join(fields, Delimiter)) == fields
  {
    var line := Join(fields, Delimiter);
    assert forall i :: 0 <= i < |fields| ==> Delimiter !in fields[i];
    SplitJoin(fields, Delimiter);
    JoinStartsWith(fields, Delimiter);
    assert line != [];
    JoinChars(fields, Delimiter, c => !IsSpace(c));
    StripUnpadded(line);
    assert forall i :: 0 <= i < |fields| ==> !IsBlank(fields[i]) by {
      forall i | 0 <= i < |fields| ensures !IsBlank(fields[i]) {
        assert !IsSpace(fields[i][0]);
      }
    }
    RetainedAllFilled(fields);
  }

  /** The numerals of a frame parse to its values. */
  lemma NumeralValues(values: seq<int>, places: nat)
    ensures ParseAll(Numerals(values, places), ParseNum) == Some(Reals(values, places))
  {
    var fields := Numerals(values, places);
    forall i | 0 <= i < |fields| ensures ParseNum(fields[i]) == Some(Scaled(values[i], places)) {
      ParseFormatFixed(values[i], places);
    }
    var vs := ParseAll(fields, ParseNum).value;
    assert vs == Reals(values, places);
  }
}
