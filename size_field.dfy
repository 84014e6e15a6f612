/** The member-size field of an archive header (bytes 48 to 57): ASCII text,
    stripped of whitespace, read as a decimal integer. */
module SizeField {
  import opened Base

  /** Width of the size field in a member header. */
  const FieldWidth: nat := 10

  /** The ASCII characters Python's `str.strip()` removes: tab, line feed,
      vertical tab, form feed, carriage return, the four separators
      0x1C..0x1F, and space. */
  predicate IsSpace(b: byte) {
    9 <= b <= 13 || 28 <= b <= 32
  }

  predicate IsDigit(b: byte) {
    '0' as int <= b <= '9' as int
  }

  function TrimStart(s: seq<byte>): (r: seq<byte>)
    ensures |r| <= |s|
    ensures r != [] ==> !IsSpace(r[0])
  {
    if s != [] && IsSpace(s[0]) then TrimStart(s[1..]) else s
  }

  function TrimEnd(s: seq<byte>): (r: seq<byte>)
    ensures |r| <= |s|
    ensures r != [] ==> !IsSpace(r[|r| - 1])
  {
    if s != [] && IsSpace(s[|s| - 1]) then TrimEnd(s[..|s| - 1]) else s
  }

  /** `str.strip()` on ASCII text. */
  function Strip(s: seq<byte>): seq<byte> {
    TrimStart(TrimEnd(s))
  }

  /** The value of a string of decimal digits, most significant first. */
  function DigitsValue(s: seq<byte>): nat
    requires forall k :: 0 <= k < |s| ==> IsDigit(s[k])
  {
    if s == [] then 0
    else
      var d := s[|s| - 1];
      assert IsDigit(d);
      DigitsValue(s[..|s| - 1]) * 10 + (d - '0' as int)
  }

  /** `int(field.decode("ascii").strip())`, with `None` where the source's
      `except ValueError` fires: after stripping, the text must be one or
      more ASCII digits. */
  function ParseSize(field: seq<byte>): Option<nat> {
    var t := Strip(field);
    if t != [] && forall k :: 0 <= k < |t| ==> IsDigit(t[k]) then Some(DigitsValue(t))
    else None
  }

  /** The decimal digits of `n` without leading zeros. */
  function Decimal(n: nat): (r: seq<byte>)
    ensures r != [] && forall k :: 0 <= k < |r| ==> IsDigit(r[k])
  {
    if n < 10 then ['0' as int + n] else Decimal(n / 10) + ['0' as int + n % 10]
  }

  function Spaces(n: nat): (r: seq<byte>)
    ensures |r| == n && forall k :: 0 <= k < n ==> r[k] == ' ' as int
  {
    if n == 0 then [] else [' ' as int] + Spaces(n - 1)
  }

  function Pow10(n: nat): (r: nat)
    ensures r >= 1
  {
    if n == 0 then 1 else 10 * Pow10(n - 1)
  }

  /** The size field an archiver writes for a member of `n` bytes: the
      decimal digits padded on the right with spaces to the field width. */
  function EncodeSize(n: nat): (r: seq<byte>)
    requires n < Pow10(FieldWidth)
    ensures |r| == FieldWidth
  {
    DecimalLength(n, FieldWidth);
    Decimal(n) + Spaces(FieldWidth - |Decimal(n)|)
  }

  lemma {:induction false} DecimalLength(n: nat, w: nat)
    requires 1 <= w && n < Pow10(w)
    ensures |Decimal(n)| <= w
  {
    if n >= 10 {
      assert w > 1 by {
        if w == 1 { assert false; }
      }
      DecimalLength(n / 10, w - 1);
    }
  }

  lemma {:induction false} DigitsValueOfDecimal(n: nat)
    ensures DigitsValue(Decimal(n)) == n
  {
    var d := Decimal(n);
    if n >= 10 {
      assert d[..|d| - 1] == Decimal(n / 10);
      DigitsValueOfDecimal(n / 10);
    }
  }

  lemma {:induction false} TrimEndOfPadded(s: seq<byte>, pad: nat)
    requires s != [] && !IsSpace(s[|s| - 1])
    ensures TrimEnd(s + Spaces(pad)) == s
  {
    if pad > 0 {
      var t := s + Spaces(pad);
      assert t[..|t| - 1] == s + Spaces(pad - 1) by {
        assert Spaces(pad) == [' ' as int] + Spaces(pad - 1);
        assert Spaces(pad)[..pad - 1] == Spaces(pad - 1);
      }
      TrimEndOfPadded(s, pad - 1);
    } else {
      assert s + Spaces(0) == s;
    }
  }

  /** Round trip: the field written for a size parses back to that size. */
  lemma ParseEncodedSize(n: nat)
    requires n < Pow10(FieldWidth)
    ensures ParseSize(EncodeSize(n)) == Some(n)
  {
    var d := Decimal(n);
    DecimalLength(n, FieldWidth);
    TrimEndOfPadded(d, FieldWidth - |d|);
    assert TrimEnd(EncodeSize(n)) == d;
    assert TrimStart(d) == d;
    DigitsValueOfDecimal(n);
  }

  lemma {:induction false} TrimStartKeeps(s: seq<byte>, k: nat)
    requires k < |s| && !IsSpace(s[k])
    ensures s[k] in TrimStart(s)
  {
    if IsSpace(s[0]) {
      TrimStartKeeps(s[1..], k - 1);
    }
  }

  lemma {:induction false} TrimEndKeeps(s: seq<byte>, k: nat)
    requires k < |s| && !IsSpace(s[k])
    ensures s[k] in TrimEnd(s)
  {
    if IsSpace(s[|s| - 1]) {
      TrimEndKeeps(s[..|s| - 1], k);
    }
  }

  /** Any byte that is neither whitespace nor a decimal digit makes the field
      unreadable. In particular a sign (`+`, `-`) or an underscore, which
      Python's `int()` would accept, stops the scan here. */
  lemma SizeRejectsNonDigit(field: seq<byte>, k: nat)
    requires k < |field| && !IsSpace(field[k]) && !IsDigit(field[k])
    ensures ParseSize(field) == None
  {
    TrimEndKeeps(field, k);
    var e := TrimEnd(field);
    var i :| 0 <= i < |e| && e[i] == field[k];
    TrimStartKeeps(e, i);
  }

  /** A field of whitespace only (Python's `int('')`) is unreadable. */
  lemma {:induction false} BlankSizeRejected(field: seq<byte>)
    requires forall k :: 0 <= k < |field| ==> IsSpace(field[k])
    ensures TrimEnd(field) == []
    ensures ParseSize(field) == None
  {
    if field != [] {
      BlankSizeRejected(field[..|field| - 1]);
    }
  }

  /** A readable size has at most as many digits as the field is wide. */
  lemma {:induction false} DigitsValueBound(s: seq<byte>)
    requires forall k :: 0 <= k < |s| ==> IsDigit(s[k])
    ensures DigitsValue(s) < Pow10(|s|)
  {
    if s != [] {
      DigitsValueBound(s[..|s| - 1]);
    }
  }

  lemma ParseSizeBound(field: seq<byte>)
    requires ParseSize(field).Some?
    ensures ParseSize(field).value < Pow10(|field|)
  {
    var t := Strip(field);
    DigitsValueBound(t);
    Pow10Monotone(|t|, |field|);
  }

  lemma {:induction false} Pow10Monotone(a: nat, b: nat)
    requires a <= b
    ensures Pow10(a) <= Pow10(b)
  {
    if a < b {
      Pow10Monotone(a, b - 1);
    }
  }
}
