/** The two string helpers of demo/demo.cpp: `split`, which cuts a CSV
    line at a delimiter, and `sv_to_num`, which reads a decimal `int` from
    the front of a field with `std::from_chars`. */
module Demo {
  import opened Types

  // ---------------------------------------------------------------------
  // split

  /** `std::string_view::find(delimiter, from)`: the first position at or
      after `from` that holds the delimiter, or `|s|` (`npos`) when there
      is none. */
  function Find(s: string, d: char, from: nat): (k: nat)
    requires from <= |s|
    ensures from <= k <= |s|
    ensures k < |s| ==> s[k] == d
    ensures forall i :: from <= i < k ==> s[i] != d
    decreases |s| - from
  {
    if from == |s| then |s|
    else if s[from] == d then from
    else Find(s, d, from + 1)
  }

  /** All the pieces between delimiters from position `from` on, the empty
      ones included: one more piece than there are delimiters. */
  function Fields(s: string, d: char, from: nat): (fs: seq<string>)
    requires from <= |s|
    ensures |fs| > 0
    decreases |s| - from
  {
    var end := Find(s, d, from);
    if end == |s| then [s[from..]] else [s[from..end]] + Fields(s, d, end + 1)
  }

  /** What `split` leaves in `out_tokens`: the pieces between delimiters,
      except that a final piece is kept only when it is not empty. */
  function SplitSpec(s: string, d: char): (ts: seq<string>)
    ensures forall j :: 0 <= j < |ts| ==> d !in ts[j]
  {
    FieldsNoDelimiter(s, d, 0);
    var fs := Fields(s, d, 0);
    if fs[|fs| - 1] == [] then fs[..|fs| - 1] else fs
  }

  /** The tokens put back together with the delimiter between them. */
  function Join(ts: seq<string>, d: char): string
  {
    if ts == [] then []
    else if |ts| == 1 then ts[0]
    else ts[0] + [d] + Join(ts[1..], d)
  }

  /** `split` (demo/demo.cpp:31-45): `out_tokens` is cleared, then every
      piece that ends at a delimiter is appended in order, and the rest of
      the line after the last delimiter is appended when it is not empty. */
  method Split(line: string, delimiter: char) returns (tokens: seq<string>)
    ensures tokens == SplitSpec(line, delimiter)
  {
    tokens := [];
    var start := 0;
    var end := Find(line, delimiter, start);
    while end < |line|
      invariant start <= end <= |line|
      invariant end == Find(line, delimiter, start)
      invariant tokens + Fields(line, delimiter, start) == Fields(line, delimiter, 0)
      decreases |line| - start
    {
      AppendAssoc(tokens, [line[start..end]], Fields(line, delimiter, end + 1));
      tokens := tokens + [line[start..end]];
      start := end + 1;
      end := Find(line, delimiter, start);
    }
    SplitLast(line, delimiter, start, tokens);
    if start < |line| {
      tokens := tokens + [line[start..]];
    }
  }

  /** The end of `split`: with no delimiter left, the pieces still to come
      are the rest of the line alone, which is kept when it is not empty. */
  lemma SplitLast(line: string, d: char, start: nat, tokens: seq<string>)
    requires start <= |line| && Find(line, d, start) == |line|
    requires tokens + Fields(line, d, start) == Fields(line, d, 0)
    ensures SplitSpec(line, d) == if start < |line| then tokens + [line[start..]] else tokens
  {
    var fs := Fields(line, d, 0);
    assert fs == tokens + [line[start..]];
    if start == |line| {
      assert fs[..|fs| - 1] == tokens;
    }
  }

  /** No token holds the delimiter. */
  lemma {:induction false} FieldsNoDelimiter(s: string, d: char, from: nat)
    requires from <= |s|
    ensures forall j :: 0 <= j < |Fields(s, d, from)| ==> d !in Fields(s, d, from)[j]
    decreases |s| - from
  {
    var end := Find(s, d, from);
    var fs := Fields(s, d, from);
    assert d !in fs[0] by {
      assert fs[0] == s[from..end];
      assert forall i :: 0 <= i < end - from ==> s[from..end][i] == s[from + i];
    }
    if end < |s| {
      FieldsNoDelimiter(s, d, end + 1);
      forall j | 0 < j < |fs| ensures d !in fs[j] {
        assert fs[j] == Fields(s, d, end + 1)[j - 1];
      }
    }
  }

  /** Joining the pieces from `from` on with the delimiter gives back the
      rest of the line. */
  lemma {:induction false} JoinFields(s: string, d: char, from: nat)
    requires from <= |s|
    ensures Join(Fields(s, d, from), d) == s[from..]
    decreases |s| - from
  {
    var end := Find(s, d, from);
    if end < |s| {
      JoinFields(s, d, end + 1);
      var fs := Fields(s, d, from);
      assert fs[1..] == Fields(s, d, end + 1);
      assert s[from..] == s[from..end] + [d] + s[end + 1..];
    }
  }

  /** Joining after appending one more token puts one delimiter before it. */
  lemma {:induction false} JoinSnoc(ts: seq<string>, t: string, d: char)
    requires ts != []
    ensures Join(ts + [t], d) == Join(ts, d) + [d] + t
    decreases |ts|
  {
    if |ts| == 1 {
      assert ts + [t] == [ts[0], t];
    } else {
      assert (ts + [t])[1..] == ts[1..] + [t];
      JoinSnoc(ts[1..], t, d);
    }
  }

  /** The pieces from `from` on end with an empty one exactly when nothing
      is left of the line or it ends with the delimiter. */
  lemma {:induction false} LastField(s: string, d: char, from: nat)
    requires from <= |s|
    ensures var fs := Fields(s, d, from);
      fs[|fs| - 1] == [] <==> from == |s| || s[|s| - 1] == d
    decreases |s| - from
  {
    var end := Find(s, d, from);
    if end < |s| {
      LastField(s, d, end + 1);
    }
  }

  /** Joining the tokens gives back the line, less its final delimiter when
      it ends with one. */
  lemma SplitJoin(line: string, d: char)
    ensures Join(SplitSpec(line, d), d) ==
      if line != [] && line[|line| - 1] == d then line[..|line| - 1] else line
  {
    JoinFields(line, d, 0);
    LastField(line, d, 0);
    var fs := Fields(line, d, 0);
    assert line[0..] == line;
    if fs[|fs| - 1] == [] && |fs| > 1 {
      var init := fs[..|fs| - 1];
      assert fs == init + [[]];
      JoinSnoc(init, [], d);
      assert line == Join(init, d) + [d];
    }
  }

  /** A trailing delimiter yields no empty final token: "a,b," gives two. */
  lemma SplitTrailing()
    ensures SplitSpec("a,b,", ',') == ["a", "b"]
  {
    var s := "a,b,";
    assert Find(s, ',', 4) == 4;
    assert Fields(s, ',', 4) == [""] by {
      assert s[4..] == "";
    }
    assert Find(s, ',', 2) == 3 by {
      assert s[2] == 'b' && s[3] == ',';
    }
    assert Fields(s, ',', 2) == ["b", ""] by {
      assert s[2..3] == "b";
    }
    assert Find(s, ',', 0) == 1;
    assert Fields(s, ',', 0) == ["a", "b", ""] by {
      assert s[0..1] == "a";
    }
  }

  /** A lone delimiter gives one empty token; an empty line gives none. */
  lemma SplitDegenerate()
    ensures SplitSpec(",", ',') == [""]
    ensures SplitSpec("", ',') == []
  {
    assert Fields("", ',', 0) == [""];
    assert Find(",", ',', 1) == 1;
    assert Find(",", ',', 0) == 0;
    assert Fields(",", ',', 0) == ["", ""] by {
      assert ","[0..0] == "" && ","[1..] == "";
    }
  }

  /** Adjacent delimiters give an empty token between them. */
  lemma SplitAdjacent()
    ensures SplitSpec("2,,3", ',') == ["2", "", "3"]
  {
    var s := "2,,3";
    assert Find(s, ',', 3) == 4;
    assert Fields(s, ',', 3) == ["3"] by {
      assert s[3..] == "3";
    }
    assert Find(s, ',', 2) == 2;
    assert Fields(s, ',', 2) == ["", "3"] by {
      assert s[2..2] == "";
    }
    assert Find(s, ',', 0) == 1;
    assert Fields(s, ',', 0) == ["2", "", "3"] by {
      assert s[0..1] == "2";
    }
  }

  // ---------------------------------------------------------------------
  // sv_to_num

  /** The range of a 32-bit `int`. */
  const IntMin: int := -0x8000_0000
  const IntMax: int := 0x7FFF_FFFF

  predicate IsDigit(c: char)
  {
    '0' <= c <= '9'
  }

  /** The length of the run of decimal digits at the front of `s`. */
  function LeadingDigits(s: string): (n: nat)
    ensures n <= |s|
    ensures forall i :: 0 <= i < n ==> IsDigit(s[i])
    ensures n < |s| ==> !IsDigit(s[n])
  {
    if s == [] || !IsDigit(s[0]) then 0 else 1 + LeadingDigits(s[1..])
  }

  /** The value of a string of decimal digits, most significant first. */
  function DecimalValue(ds: string): nat
    requires forall i :: 0 <= i < |ds| ==> IsDigit(ds[i])
  {
    if ds == [] then 0
    else DecimalValue(ds[..|ds| - 1]) * 10 + DigitValue(ds[|ds| - 1])
  }

  function DigitValue(c: char): (v: nat)
    requires IsDigit(c)
    ensures v < 10
  {
    c as int - '0' as int
  }

  /** `sv_to_num` (demo/demo.cpp:25-29): `std::from_chars` into an `int`
      that starts at 0. An optional '-' and then the longest run of decimal
      digits are read and the rest of the field is ignored; when there is no
      digit, or the value does not fit in an `int`, `from_chars` leaves the
      variable alone and the result is 0. */
  function SvToNum(sv: string): (r: int)
    ensures IntMin <= r <= IntMax
  {
    var neg := sv != [] && sv[0] == '-';
    var rest := if neg then sv[1..] else sv;
    var n := LeadingDigits(rest);
    if n == 0 then 0
    else
      var v: int := if neg then -(DecimalValue(rest[..n]) as int) else DecimalValue(rest[..n]);
      if IntMin <= v <= IntMax then v else 0
  }

  /** The decimal digits of n, without leading zeros. */
  function Decimal(n: nat): (ds: string)
    ensures ds != []
    ensures forall i :: 0 <= i < |ds| ==> IsDigit(ds[i])
  {
    var c := ('0' as int + n % 10) as char;
    if n < 10 then [c] else Decimal(n / 10) + [c]
  }

  /** How an `int` is written in decimal. */
  function Show(x: int): string
  {
    if x < 0 then "-" + Decimal(-x) else Decimal(x)
  }

  /** Reading the digits of n gives back n. */
  lemma {:induction false} DecimalRoundTrip(n: nat)
    ensures DecimalValue(Decimal(n)) == n
  {
    var ds := Decimal(n);
    if n >= 10 {
      DecimalRoundTrip(n / 10);
      assert ds[..|ds| - 1] == Decimal(n / 10);
    }
  }

  /** The digit run at the front of a string of digits followed by text
      that does not start with a digit is exactly those digits. */
  lemma LeadingRun(ds: string, tail: string)
    requires forall i :: 0 <= i < |ds| ==> IsDigit(ds[i])
    requires tail == [] || !IsDigit(tail[0])
    ensures var s := ds + tail;
      LeadingDigits(s) == |ds| && s[..|ds|] == ds
  {
    var s := ds + tail;
    assert forall i :: 0 <= i < |ds| ==> s[i] == ds[i];
    assert |ds| < |s| ==> s[|ds|] == tail[0];
  }

  /** What `sv_to_num` makes of an optional '-', a run of digits and text
      that does not start with a digit: the signed value of the digits when
      it fits in an `int`, and 0 otherwise. */
  lemma SvToNumParts(neg: bool, ds: string, tail: string)
    requires ds != [] && forall i :: 0 <= i < |ds| ==> IsDigit(ds[i])
    requires tail == [] || !IsDigit(tail[0])
    ensures var v := if neg then -(DecimalValue(ds) as int) else DecimalValue(ds) as int;
      SvToNum(if neg then "-" + (ds + tail) else ds + tail) == if IntMin <= v <= IntMax then v else 0
  {
    LeadingRun(ds, tail);
    if neg {
      assert ("-" + (ds + tail))[1..] == ds + tail;
    }
  }

  /** `sv_to_num` reads back every `int` written in decimal, whatever
      non-digit text follows it ("12ab" gives 12). */
  lemma SvToNumShow(x: int, tail: string)
    requires IntMin <= x <= IntMax
    requires tail == [] || !IsDigit(tail[0])
    ensures SvToNum(Show(x) + tail) == x
  {
    if x < 0 {
      var n: nat := -x;
      DecimalRoundTrip(n);
      SvToNumParts(true, Decimal(n), tail);
      AppendAssoc("-", Decimal(n), tail);
    } else {
      DecimalRoundTrip(x);
      SvToNumParts(false, Decimal(x), tail);
    }
  }

  /** A number too large for an `int` reads as 0, with or without a sign. */
  lemma SvToNumOutOfRange(n: nat, tail: string)
    requires tail == [] || !IsDigit(tail[0])
    ensures n > IntMax ==> SvToNum(Decimal(n) + tail) == 0
    ensures n > -IntMin ==> SvToNum("-" + Decimal(n) + tail) == 0
  {
    DecimalRoundTrip(n);
    SvToNumParts(true, Decimal(n), tail);
    SvToNumParts(false, Decimal(n), tail);
    AppendAssoc("-", Decimal(n), tail);
  }

  /** A field that does not start with a digit, or with '-' and a digit,
      reads as 0. */
  lemma SvToNumNoDigits(sv: string)
    requires sv == [] || (!IsDigit(sv[0]) && (sv[0] != '-' || |sv| == 1 || !IsDigit(sv[1])))
    ensures SvToNum(sv) == 0
  {
  }

  /** Trailing text is ignored, a sign is read, and a field with no digit
      reads as 0. */
  lemma SvToNumExamples()
    ensures SvToNum("12ab") == 12
    ensures SvToNum("-7") == -7
    ensures SvToNum("") == 0
    ensures SvToNum("-") == 0
  {
    assert DecimalValue("12") == 12 by {
      assert "12"[..1] == "1";
      assert "1"[..0] == "";
    }
    SvToNumParts(false, "12", "ab");
    assert "12" + "ab" == "12ab";
    assert DecimalValue("7") == 7 by {
      assert "7"[..0] == "";
    }
    SvToNumParts(true, "7", "");
    assert "-" + ("7" + "") == "-7";
  }
}
