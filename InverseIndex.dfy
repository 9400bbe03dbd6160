/**
 * The E-Hentai inverse table: every gallery, named by its decimal id and its
 * hexadecimal token, is packed into one 64-bit key `(id << 40) + token`,
 * computed on C# longs without overflow checks.  The keys come either from
 * the gallery URLs of the archive or, in low-performance mode, from the
 * HitomiColumnModel table read page by page in Id order.  The first
 * conversion that throws ends the run with no table written.
 */
module InverseIndex {
  import opened Wrappers
  import opened Arith
  import opened Paging
  import opened ArticleRows
  import SqlLiteral

  const TwoTo40: int := 0x100_0000_0000
  const TwoTo63: int := 0x8000_0000_0000_0000
  const TwoTo64: int := 0x1_0000_0000_0000_0000


  /** The exceptions Convert.ToInt64 and array indexing can throw here. */
  datatype ConvertError =
    | IndexOutOfRange       // a URL with too few '/'-separated parts
    | FormatError           // no digits, or characters that are not digits
    | OverflowError         // a value outside the range of a long
    | ArgumentError         // a '-' before a hexadecimal number
    | ArgumentOutOfRange    // an empty string given to the hexadecimal parser

  /** A C# long. */
  predicate IsLong(x: int)
  {
    -TwoTo63 <= x < TwoTo63
  }

  // ---------------------------------------------------------------------------
  // Long arithmetic

  /** The low 64 bits of x read as a two's-complement long: unchecked C# arithmetic. */
  function Wrap64(x: int): (r: int)
    ensures IsLong(r)
    ensures IsLong(x) ==> r == x
  {
    (x + TwoTo63) % TwoTo64 - TwoTo63
  }

  lemma {:induction false} Wrap64Shift(x: int, k: int)
    ensures Wrap64(x + k * TwoTo64) == Wrap64(x)
  {
    var q, r := (x + TwoTo63) / TwoTo64, (x + TwoTo63) % TwoTo64;
    assert x + TwoTo63 == q * TwoTo64 + r;
    assert x + k * TwoTo64 + TwoTo63 == (q + k) * TwoTo64 + r;
    ModUnique(x + k * TwoTo64 + TwoTo63, TwoTo64, q + k, r);
  }

  /** `(xi << 40) + yi` on longs: the shift drops every bit above the 64th, the sum wraps. */
  function PackKey(xi: int, yi: int): (k: int)
    requires IsLong(xi) && IsLong(yi)
    ensures IsLong(k)
  {
    Wrap64(Wrap64(xi * TwoTo40) + yi)
  }

  /** An id below 2^23 and a token below 2^40 pack to a non-negative key that gives both back. */
  lemma {:induction false} PackKeyUnpacks(id: int, token: int)
    requires 0 <= id < 0x80_0000 && 0 <= token < TwoTo40
    ensures PackKey(id, token) == id * TwoTo40 + token
    ensures 0 <= PackKey(id, token)
    ensures PackKey(id, token) / TwoTo40 == id && PackKey(id, token) % TwoTo40 == token
  {
    MulMonotone(id, 0x7f_ffff, TwoTo40);
    ModUnique(id * TwoTo40 + token, TwoTo40, id, token);
  }

  /** In that range two galleries never share a key. */
  lemma {:induction false} PackKeyInjective(id1: int, token1: int, id2: int, token2: int)
    requires 0 <= id1 < 0x80_0000 && 0 <= token1 < TwoTo40
    requires 0 <= id2 < 0x80_0000 && 0 <= token2 < TwoTo40
    requires PackKey(id1, token1) == PackKey(id2, token2)
    ensures id1 == id2 && token1 == token2
  {
    PackKeyUnpacks(id1, token1);
    PackKeyUnpacks(id2, token2);
  }

  /** A token of more than 40 bits is not rejected: its 41st bit lands in the id. */
  lemma {:induction false} PackKeyTokenSpills(id: int, token: int)
    requires 0 <= id && id + 1 < 0x80_0000 && 0 <= token < TwoTo40
    ensures PackKey(id, token + TwoTo40) == PackKey(id + 1, token)
  {
    PackKeyUnpacks(id + 1, token);
    MulSucc(id, TwoTo40);
    MulMonotone(id + 1, 0x7f_ffff, TwoTo40);
  }

  /** An id of 2^24 loses its only bit in the shift and shares its key with id 0. */
  lemma {:induction false} PackKeyIdWraps(token: int)
    requires 0 <= token < TwoTo40
    ensures PackKey(0x100_0000, token) == PackKey(0, token)
  {
    assert 0x100_0000 * TwoTo40 == 0 + 1 * TwoTo64;
    Wrap64Shift(0, 1);
  }

  /** An id of 2^23 reaches the sign bit: its keys are negative. */
  lemma {:induction false} PackKeyGoesNegative(token: int)
    requires 0 <= token < TwoTo40
    ensures PackKey(0x80_0000, token) == token - TwoTo63
  {
    assert 0x80_0000 * TwoTo40 == TwoTo63;
    Wrap64Shift(-TwoTo63, 1);
  }

  // ---------------------------------------------------------------------------
  // string.Split

  /** The number of times c occurs in s. */
  function Occurrences(s: string, c: char): nat
  {
    if s == [] then 0 else (if s[0] == c then 1 else 0) + Occurrences(s[1..], c)
  }

  /** `s.Split(sep)`: the pieces between separators, empty pieces kept. */
  function Split(s: string, sep: char): (parts: seq<string>)
    ensures |parts| > 0
  {
    if s == [] then [""]
    else
      var rest := Split(s[1..], sep);
      if s[0] == sep then [""] + rest else [[s[0]] + rest[0]] + rest[1..]
  }

  /** Split cuts at every separator: one more piece than there are separators. */
  lemma {:induction false} SplitCount(s: string, sep: char)
    ensures |Split(s, sep)| == Occurrences(s, sep) + 1
  {
    if s != [] {
      SplitCount(s[1..], sep);
    }
  }

  /** No piece holds a separator. */
  lemma {:induction false} SplitPieces(s: string, sep: char)
    ensures forall i :: 0 <= i < |Split(s, sep)| ==> sep !in Split(s, sep)[i]
  {
    if s != [] {
      SplitPieces(s[1..], sep);
      var rest := Split(s[1..], sep);
      var parts := Split(s, sep);
      if s[0] == sep {
        assert forall i :: 1 <= i < |parts| ==> parts[i] == rest[i - 1];
      } else {
        assert forall i :: 1 <= i < |parts| ==> parts[i] == rest[i];
        assert sep !in rest[0];
        assert parts[0] == [s[0]] + rest[0];
      }
    }
  }

  /** Joining the pieces with the separator gives the string back. */
  lemma {:induction false} SplitJoin(s: string, sep: char)
    ensures Join(Split(s, sep), sep) == s
  {
    if s != [] {
      SplitJoin(s[1..], sep);
      var rest := Split(s[1..], sep);
      var parts := Split(s, sep);
      if s[0] == sep {
        assert parts[1..] == rest;
        assert Join(parts, sep) == "" + [sep] + Join(rest, sep);
      } else {
        assert parts[1..] == rest[1..];
        if |rest| == 1 {
          assert Join(parts, sep) == [s[0]] + rest[0];
        } else {
          assert Join(rest, sep) == rest[0] + [sep] + Join(rest[1..], sep);
          assert Join(parts, sep) == [s[0]] + rest[0] + [sep] + Join(rest[1..], sep);
        }
      }
      assert s == [s[0]] + s[1..];
    }
  }

  lemma {:induction false} SplitAt(a: string, b: string, sep: char)
    requires sep !in a
    ensures Split(a + ([sep] + b), sep) == [a] + Split(b, sep)
  {
    if a == [] {
      assert a + ([sep] + b) == [sep] + b;
      assert ([sep] + b)[1..] == b;
    } else {
      assert (a + ([sep] + b))[1..] == a[1..] + ([sep] + b);
      SplitAt(a[1..], b, sep);
      assert [a[0]] + a[1..] == a;
    }
  }

  // ---------------------------------------------------------------------------
  // Convert.ToInt64

  /** The characters .NET number parsing skips around a number: space and U+0009 to U+000D. */
  predicate IsWhite(c: char)
  {
    c == ' ' || '\t' <= c <= '\r'
  }

  function TrimStart(s: string): (r: string)
    ensures |r| <= |s| && (r == [] || !IsWhite(r[0]))
  {
    if s != [] && IsWhite(s[0]) then TrimStart(s[1..]) else s
  }

  function TrimEnd(s: string): (r: string)
    ensures |r| <= |s| && (r == [] || !IsWhite(r[|r| - 1]))
  {
    if s != [] && IsWhite(s[|s| - 1]) then TrimEnd(s[..|s| - 1]) else s
  }

  predicate AllDigits(s: string)
  {
    forall i :: 0 <= i < |s| ==> IsDigit(s[i])
  }

  /** The value of a run of decimal digits, most significant first. */
  function DecimalValue(ds: string): nat
    requires AllDigits(ds)
  {
    if ds == [] then 0 else DecimalValue(ds[..|ds| - 1]) * 10 + (ds[|ds| - 1] as int - '0' as int)
  }

  /**
   * `Convert.ToInt64(s)` (base 10): surrounding white space, one optional
   * sign, at least one digit; a value outside the long range overflows.
   */
  function ParseInt64(s: string): (r: Result<int, ConvertError>)
    ensures r.Success? ==> IsLong(r.value)
    ensures r.Failure? ==> r.error == FormatError || r.error == OverflowError
  {
    var t := TrimEnd(TrimStart(s));
    var negative := t != [] && t[0] == '-';
    var body := if t != [] && (t[0] == '-' || t[0] == '+') then t[1..] else t;
    if body == [] || !AllDigits(body) then Failure(FormatError)
    else
      var v: int := if negative then -(DecimalValue(body) as int) else DecimalValue(body);
      if IsLong(v) then Success(v) else Failure(OverflowError)
  }

  function HexDigitValue(c: char): Option<nat>
  {
    if '0' <= c <= '9' then Some(c as int - '0' as int)
    else if 'a' <= c <= 'f' then Some(c as int - 'a' as int + 10)
    else if 'A' <= c <= 'F' then Some(c as int - 'A' as int + 10)
    else None
  }

  predicate IsHexDigit(c: char)
  {
    HexDigitValue(c).Some?
  }

  predicate AllHex(s: string)
  {
    forall i :: 0 <= i < |s| ==> IsHexDigit(s[i])
  }

  /** The value of a run of hexadecimal digits, most significant first. */
  function HexValue(ds: string): nat
    requires AllHex(ds)
  {
    if ds == [] then 0 else HexValue(ds[..|ds| - 1]) * 16 + HexDigitValue(ds[|ds| - 1]).value
  }

  /** The longest prefix of s made of hexadecimal digits. */
  function HexRun(s: string): (r: string)
    ensures |r| <= |s| && r == s[..|r|] && AllHex(r)
    ensures |r| < |s| ==> !IsHexDigit(s[|r|])
  {
    if s == [] || !IsHexDigit(s[0]) then []
    else
      var rest := HexRun(s[1..]);
      assert ([s[0]] + rest)[1..] == rest;
      [s[0]] + rest
  }

  /** The digits after an optional '+' and an optional "0x" or "0X". */
  function HexBody(s: string): string
  {
    var unsigned := if s != [] && s[0] == '+' then s[1..] else s;
    if |unsigned| >= 2 && unsigned[0] == '0' && (unsigned[1] == 'x' || unsigned[1] == 'X')
    then unsigned[2..] else unsigned
  }

  /**
   * `Convert.ToInt64(s, 16)`: no white space, an optional '+' (a '-' is an
   * argument error), an optional "0x", then hexadecimal digits and nothing
   * else.  The digits are read as an unsigned 64-bit number, overflowing at
   * 2^64, and the long with the same bits is returned.
   */
  function ParseHex64(s: string): (r: Result<int, ConvertError>)
    ensures r.Success? ==> IsLong(r.value)
  {
    if s == [] then Failure(ArgumentOutOfRange)
    else if s[0] == '-' then Failure(ArgumentError)
    else
      var digits := HexBody(s);
      var run := HexRun(digits);
      if HexValue(run) >= TwoTo64 then Failure(OverflowError)
      else if run == [] || |run| < |digits| then Failure(FormatError)
      else Success(Wrap64(HexValue(run)))
  }

  /** The text base-10 parsing reads as digits: trimmed, with one leading sign dropped. */
  function DecimalBody(s: string): string
  {
    var t := TrimEnd(TrimStart(s));
    if t != [] && (t[0] == '-' || t[0] == '+') then t[1..] else t
  }

  /** The value the digits denote, with the sign applied. */
  function SignedDecimal(s: string): int
    requires AllDigits(DecimalBody(s))
  {
    var t := TrimEnd(TrimStart(s));
    if t != [] && t[0] == '-' then -(DecimalValue(DecimalBody(s)) as int) else DecimalValue(DecimalBody(s))
  }

  /**
   * Base 10: text with no digits, or with anything but digits after the
   * sign, is a format error; digits whose signed value is not a long
   * overflow; otherwise the signed value is returned.
   */
  lemma {:induction false} ParseInt64Outcomes(s: string)
    ensures ParseInt64(s) == Failure(FormatError) <==> DecimalBody(s) == [] || !AllDigits(DecimalBody(s))
    ensures ParseInt64(s) == Failure(OverflowError)
        <==> DecimalBody(s) != [] && AllDigits(DecimalBody(s)) && !IsLong(SignedDecimal(s))
    ensures ParseInt64(s).Success?
        <==> DecimalBody(s) != [] && AllDigits(DecimalBody(s)) && IsLong(SignedDecimal(s))
    ensures ParseInt64(s).Success? ==> ParseInt64(s).value == SignedDecimal(s)
  {
  }

  /** Trailing junk after the digits is a format error. */
  lemma ParseInt64Junk()
    ensures ParseInt64("12a") == Failure(FormatError)
  {
    assert !IsDigit("12a"[2]);
  }

  /**
   * Base 16: the empty string is out of range, a leading '-' is an argument
   * error, digits worth 2^64 or more overflow (before any junk is looked
   * at), and no digits or junk after them is a format error.
   */
  lemma {:induction false} ParseHex64Outcomes(s: string)
    ensures ParseHex64(s) == Failure(ArgumentOutOfRange) <==> s == []
    ensures ParseHex64(s) == Failure(ArgumentError) <==> s != [] && s[0] == '-'
    ensures ParseHex64(s) == Failure(OverflowError)
        <==> s != [] && s[0] != '-' && HexValue(HexRun(HexBody(s))) >= TwoTo64
    ensures ParseHex64(s) == Failure(FormatError)
        <==> s != [] && s[0] != '-' && HexValue(HexRun(HexBody(s))) < TwoTo64
             && (HexBody(s) == [] || !AllHex(HexBody(s)))
    ensures ParseHex64(s).Success?
        <==> s != [] && s[0] != '-' && HexBody(s) != [] && AllHex(HexBody(s)) && HexValue(HexBody(s)) < TwoTo64
    ensures ParseHex64(s).Success?
        ==> ParseHex64(s).value == (if HexValue(HexBody(s)) < TwoTo63 then HexValue(HexBody(s))
                                       else HexValue(HexBody(s)) - TwoTo64)
  {
    if s != [] && s[0] != '-' {
      var digits := HexBody(s);
      var run := HexRun(digits);
      HexRunWhole(digits);
      if |run| == |digits| && run != [] && HexValue(run) < TwoTo64 {
        assert run == digits;
        Wrap64High(HexValue(run));
      }
    }
  }

  /** HexRun takes the whole string exactly when it is all hexadecimal digits. */
  lemma {:induction false} HexRunWhole(d: string)
    ensures |HexRun(d)| == |d| <==> AllHex(d)
    ensures AllHex(d) ==> HexRun(d) == d
  {
    var r := HexRun(d);
    if |r| == |d| {
      assert r == d[..|d|] == d;
    }
  }

  /** An unsigned 64-bit value is read as the long with the same bits. */
  lemma {:induction false} Wrap64High(v: int)
    requires 0 <= v < TwoTo64
    ensures Wrap64(v) == if v < TwoTo63 then v else v - TwoTo64
  {
    if v >= TwoTo63 {
      ModUnique(v + TwoTo63, TwoTo64, 1, v + TwoTo63 - TwoTo64);
    }
  }

  /**
   * Hex digits worth 2^63 or more, up to 2^64, parse to the negative long
   * with the same bits.
   */
  lemma {:induction false} HexSignBit(s: string)
    requires AllHex(s) && TwoTo63 <= HexValue(s) < TwoTo64
    ensures ParseHex64(s) == Success(HexValue(s) - TwoTo64)
  {
    assert s != [] && s[0] != '+' && s[0] != '-';
    assert HexBody(s) == s by {
      assert |s| >= 2 ==> s[1] != 'x' && s[1] != 'X' by {
        if |s| >= 2 {
          assert IsHexDigit(s[1]);
        }
      }
    }
    HexRunWhole(s);
    ParseHex64Outcomes(s);
  }

  lemma {:induction false} DecimalDigits(n: nat)
    ensures DecimalValue(Digits(n)) == n
  {
    var d := Digits(n);
    if n >= 10 {
      DecimalDigits(n / 10);
      assert d[..|d| - 1] == Digits(n / 10);
    }
    assert "0123456789"[n % 10] as int - '0' as int == n % 10;
  }

  lemma {:induction false} TrimKeeps(s: string)
    requires s != [] && !IsWhite(s[0]) && !IsWhite(s[|s| - 1])
    ensures TrimEnd(TrimStart(s)) == s
  {
    assert TrimStart(s) == s;
  }

  /** Decimal text of a long, as string interpolation writes it, parses back to the long. */
  lemma {:induction false} ParseIntText(n: int)
    requires IsLong(n)
    ensures ParseInt64(IntText(n)) == Success(n)
  {
    if n < 0 {
      ParseNegativeText(n);
    } else {
      ParseNonNegativeText(n);
    }
  }

  lemma {:induction false} ParseNonNegativeText(n: int)
    requires 0 <= n < TwoTo63
    ensures ParseInt64(IntText(n)) == Success(n)
  {
    var d := Digits(n);
    assert IntText(n) == d;
    DecimalDigits(n);
    ParseDigits(d);
  }

  lemma {:induction false} ParseNegativeText(n: int)
    requires -TwoTo63 <= n < 0
    ensures ParseInt64(IntText(n)) == Success(n)
  {
    var m: nat := -n;
    var d := Digits(m);
    DecimalDigits(m);
    ParseMinusDigits(d);
    assert IntText(n) == "-" + d;
  }

  /** A run of digits parses to its value, when that is a long. */
  lemma {:induction false} ParseDigits(d: string)
    requires d != [] && AllDigits(d) && DecimalValue(d) < TwoTo63
    ensures ParseInt64(d) == Success(DecimalValue(d) as int)
  {
    assert IsDigit(d[0]) && IsDigit(d[|d| - 1]);
    TrimKeeps(d);
  }

  /** A minus sign and a run of digits parse to the negated value, when that is a long. */
  lemma {:induction false} ParseMinusDigits(d: string)
    requires d != [] && AllDigits(d) && DecimalValue(d) <= TwoTo63
    ensures ParseInt64("-" + d) == Success(-(DecimalValue(d) as int))
  {
    assert IsDigit(d[|d| - 1]);
    var t := "-" + d;
    assert t[0] == '-' && t[1..] == d;
    assert t[|t| - 1] == d[|d| - 1];
    TrimKeeps(t);
  }

  /** A hexadecimal value below 16^k has at most k digits' worth of value. */
  lemma {:induction false} HexValueBound(ds: string, k: nat, bound: nat)
    requires AllHex(ds) && |ds| <= k && bound == Pow16(k)
    ensures HexValue(ds) < bound
    decreases k
  {
    if ds != [] {
      HexValueBound(ds[..|ds| - 1], k - 1, Pow16(k - 1));
      assert HexValue(ds) <= (Pow16(k - 1) - 1) * 16 + 15;
    }
  }

  function Pow16(k: nat): (p: nat)
    ensures p > 0
  {
    if k == 0 then 1 else 16 * Pow16(k - 1)
  }

  /** A gallery token of at most ten hexadecimal digits parses to a value below 2^40, so it stays out of the id's bits. */
  lemma {:induction false} TenDigitToken(token: string)
    requires 0 < |token| <= 10 && AllHex(token)
    ensures ParseHex64(token) == Success(HexValue(token))
    ensures HexValue(token) < TwoTo40
  {
    HexValueBound(token, 10, Pow16(10));
    assert Pow16(10) == TwoTo40;
    assert !IsHexDigit('x') && !IsHexDigit('X') && !IsHexDigit('+') && !IsHexDigit('-');
    assert HexBody(token) == token;
    assert HexRun(token) == token;
  }

  // ---------------------------------------------------------------------------
  // Keys from the archive and from the table

  /** One gallery of the archive; only its URL is read. */
  datatype EHentaiResultArticle = EHentaiResultArticle(url: string)

  /**
   * The key of one archive gallery: the fifth '/'-separated part of its URL
   * is the decimal id, the sixth the hexadecimal token.  Index errors and
   * parse errors surface in that order: part 4, its parse, part 5, its parse.
   */
  function ArchiveKey(url: string): (r: Result<int, ConvertError>)
    ensures r.Success? ==> IsLong(r.value)
  {
    var parts := Split(url, '/');
    if |parts| <= 4 then Failure(IndexOutOfRange)
    else
      var xi := ParseInt64(parts[4]);
      if xi.Failure? then Failure(xi.error)
      else if |parts| <= 5 then Failure(IndexOutOfRange)
      else
        var yi := ParseHex64(parts[5]);
        if yi.Failure? then Failure(yi.error)
        else Success(PackKey(xi.value, yi.value))
  }

  /** A gallery URL `scheme//host/g/id/token/` as the archive stores it. */
  function GalleryUrl(scheme: string, host: string, id: string, token: string): string
  {
    scheme + ("/" + ("" + ("/" + (host + ("/" + ("g" + ("/" + (id + ("/" + (token + ("/" + "")))))))))))
  }

  lemma {:induction false} DigitsHaveNoSlash(n: nat)
    ensures '/' !in Digits(n)
  {
  }

  lemma {:induction false} HexHasNoSlash(token: string)
    requires AllHex(token)
    ensures '/' !in token
  {
  }

  /** The parts of a gallery URL: the id is part 4 and the token part 5. */
  lemma {:induction false} GalleryUrlParts(scheme: string, host: string, id: string, token: string)
    requires '/' !in scheme && '/' !in host && '/' !in id && '/' !in token
    ensures Split(GalleryUrl(scheme, host, id, token), '/') == [scheme, "", host, "g", id, token, ""]
  {
    var t5 := token + ("/" + "");
    var t4 := id + ("/" + t5);
    var t3 := "g" + ("/" + t4);
    var t2 := host + ("/" + t3);
    var t1 := "" + ("/" + t2);
    SplitAt(token, "", '/');
    SplitAt(id, t5, '/');
    SplitAt("g", t4, '/');
    SplitAt(host, t3, '/');
    SplitAt("", t2, '/');
    SplitAt(scheme, t1, '/');
  }

  /** ArchiveKey of a gallery URL whose id and token parse. */
  lemma {:induction false} GalleryUrlParses(scheme: string, host: string, id: string, token: string, x: int, y: int)
    requires '/' !in scheme && '/' !in host && '/' !in id && '/' !in token
    requires ParseInt64(id) == Success(x) && ParseHex64(token) == Success(y)
    ensures ArchiveKey(GalleryUrl(scheme, host, id, token)) == Success(PackKey(x, y))
  {
    GalleryUrlParts(scheme, host, id, token);
  }

  /** The key of a gallery URL is non-negative and gives back its id (the high bits) and its token (the low 40 bits). */
  lemma {:induction false} GalleryUrlKey(scheme: string, host: string, id: nat, token: string)
    requires '/' !in scheme && '/' !in host && id < 0x80_0000
    requires 0 < |token| <= 10 && AllHex(token)
    ensures var r := ArchiveKey(GalleryUrl(scheme, host, Digits(id), token));
      && r.Success? && 0 <= r.value && r.value / TwoTo40 == id && r.value % TwoTo40 == HexValue(token)
  {
    GalleryUrlPacks(scheme, host, id, token);
    PackKeyUnpacks(id, HexValue(token));
  }

  lemma {:induction false} GalleryUrlPacks(scheme: string, host: string, id: nat, token: string)
    requires '/' !in scheme && '/' !in host && id < 0x80_0000
    requires 0 < |token| <= 10 && AllHex(token)
    ensures HexValue(token) < TwoTo40
    ensures ArchiveKey(GalleryUrl(scheme, host, Digits(id), token)) == Success(PackKey(id, HexValue(token)))
  {
    GalleryIdParses(id);
    HexHasNoSlash(token);
    TenDigitToken(token);
    GalleryUrlParses(scheme, host, Digits(id), token, id, HexValue(token));
  }

  lemma {:induction false} IntTextOfNat(n: nat)
    ensures IntText(n) == Digits(n)
  {
  }

  lemma {:induction false} GalleryIdParses(id: nat)
    requires id < 0x80_0000
    ensures '/' !in Digits(id) && ParseInt64(Digits(id)) == Success(id)
  {
    DigitsHaveNoSlash(id);
    IntTextOfNat(id);
    ParseIntText(id);
  }

  /** What one input adds to the index: nothing, a key, or the exception that stops the run. */
  function ArchiveContribution(a: EHentaiResultArticle): Option<Result<int, ConvertError>>
  {
    Some(ArchiveKey(a.url))
  }

  /** A row with a null EHash is skipped; otherwise `((long)Id << 40) + Convert.ToInt64(EHash, 16)`. */
  function RowContribution(row: HitomiColumnModel): Option<Result<int, ConvertError>>
  {
    if row.eHash.None? then None
    else
      var yi := ParseHex64(row.eHash.value);
      if yi.Failure? then Some(Failure(yi.error)) else Some(Success(PackKey(row.id, yi.value)))
  }

  /** The index after visiting xs in order, or the first exception met. */
  function CollectKeys<T>(xs: seq<T>, key: T -> Option<Result<int, ConvertError>>): Result<seq<int>, ConvertError>
  {
    if xs == [] then Success([])
    else
      var before := CollectKeys(xs[..|xs| - 1], key);
      if before.Failure? then before
      else
        match key(xs[|xs| - 1])
        case None => before
        case Some(Failure(e)) => Failure(e)
        case Some(Success(k)) => Success(before.value + [k])
  }

  /** What each input adds, in order. */
  function Contributions<T>(xs: seq<T>, key: T -> Option<Result<int, ConvertError>>): (cs: seq<Option<Result<int, ConvertError>>>)
    ensures |cs| == |xs| && forall i :: 0 <= i < |xs| ==> cs[i] == key(xs[i])
  {
    seq(|xs|, i requires 0 <= i < |xs| => key(xs[i]))
  }

  /** What each row of the table adds, in Id order. */
  lemma {:induction false} RowContributions(table: seq<HitomiColumnModel>) returns (cs: seq<Option<Result<int, ConvertError>>>)
    ensures |cs| == |table|
    ensures forall i {:trigger RowContribution(table[i])} :: 0 <= i < |table| ==> cs[i] == RowContribution(table[i])
  {
    cs := Contributions(table, RowContribution);
  }

  /** The index of the table is the walk over what its rows add. */
  lemma {:induction false} CollectRows(table: seq<HitomiColumnModel>, cs: seq<Option<Result<int, ConvertError>>>)
    requires |cs| == |table|
    requires forall i {:trigger RowContribution(table[i])} :: 0 <= i < |table| ==> cs[i] == RowContribution(table[i])
    ensures CollectKeys(cs, Identity) == DatabaseKeys(table)
  {
    assert cs == Contributions(table, RowContribution);
    CollectContributions(table, RowContribution);
  }

  /**
   * The identity on contributions: the walk over a list of precomputed
   * contributions uses it as its key function, named so that every use is
   * the same function value.
   */
  function Identity(c: Option<Result<int, ConvertError>>): Option<Result<int, ConvertError>>
  {
    c
  }

  /** The walk depends only on what each input adds. */
  lemma {:induction false} CollectContributions<T>(xs: seq<T>, key: T -> Option<Result<int, ConvertError>>)
    ensures CollectKeys(xs, key) == CollectKeys(Contributions(xs, key), Identity)
    decreases |xs|
  {
    if xs != [] {
      var init := xs[..|xs| - 1];
      CollectContributions(init, key);
      assert Contributions(xs, key)[..|xs| - 1] == Contributions(init, key);
    }
  }

  predicate Throws<T>(key: T -> Option<Result<int, ConvertError>>, x: T)
  {
    key(x).Some? && key(x).value.Failure?
  }

  /** The key one input adds, if any. */
  function KeyOf<T>(key: T -> Option<Result<int, ConvertError>>, x: T): seq<int>
    requires !Throws(key, x)
  {
    if key(x).Some? then [key(x).value.value] else []
  }

  predicate NoneThrows<T>(xs: seq<T>, key: T -> Option<Result<int, ConvertError>>)
  {
    forall i :: 0 <= i < |xs| ==> !Throws(key, xs[i])
  }

  /** The keys of the inputs that have one, in input order. */
  function Kept<T>(xs: seq<T>, key: T -> Option<Result<int, ConvertError>>): seq<int>
    requires NoneThrows(xs, key)
  {
    if xs == [] then []
    else
      assert !Throws(key, xs[0]);
      assert forall i :: 0 <= i < |xs[1..]| ==> xs[1..][i] == xs[i + 1];
      KeyOf(key, xs[0]) + Kept(xs[1..], key)
  }

  lemma {:induction false} KeptSnoc<T>(xs: seq<T>, key: T -> Option<Result<int, ConvertError>>)
    requires xs != [] && NoneThrows(xs, key)
    ensures NoneThrows(xs[..|xs| - 1], key) && !Throws(key, xs[|xs| - 1])
    ensures Kept(xs, key) == Kept(xs[..|xs| - 1], key) + KeyOf(key, xs[|xs| - 1])
    decreases |xs|
  {
    var init, last := xs[..|xs| - 1], xs[|xs| - 1];
    NoneThrowsSlice(xs, 0, |xs| - 1, key);
    assert !Throws(key, xs[|xs| - 1]);
    if |xs| > 1 {
      var ys := xs[1..];
      NoneThrowsSlice(xs, 1, |xs|, key);
      KeptCons(xs, key);
      KeptSnoc(ys, key);
      KeptCons(init, key);
      assert ys[..|ys| - 1] == init[1..];
      assert ys[|ys| - 1] == last && init[0] == xs[0];
      SqlLiteral.Assoc(KeyOf(key, xs[0]), Kept(init[1..], key), KeyOf(key, last));
    } else {
      assert init == [] && xs[1..] == [];
      KeptCons(xs, key);
    }
  }

  lemma {:induction false} KeptCons<T>(xs: seq<T>, key: T -> Option<Result<int, ConvertError>>)
    requires xs != [] && NoneThrows(xs, key)
    ensures !Throws(key, xs[0]) && NoneThrows(xs[1..], key)
    ensures Kept(xs, key) == KeyOf(key, xs[0]) + Kept(xs[1..], key)
  {
    NoneThrowsSlice(xs, 1, |xs|, key);
  }

  lemma {:induction false} NoneThrowsSlice<T>(xs: seq<T>, lo: nat, hi: nat, key: T -> Option<Result<int, ConvertError>>)
    requires lo <= hi <= |xs| && NoneThrows(xs, key)
    ensures NoneThrows(xs[lo..hi], key)
  {
    assert forall i :: 0 <= i < hi - lo ==> xs[lo..hi][i] == xs[lo + i];
  }

  /** With no input throwing, the walk succeeds with the key of every input that has one, in order. */
  lemma {:induction false} CollectKeysSucceeds<T>(xs: seq<T>, key: T -> Option<Result<int, ConvertError>>)
    requires NoneThrows(xs, key)
    ensures CollectKeys(xs, key) == Success(Kept(xs, key))
  {
    if xs != [] {
      var init, last := xs[..|xs| - 1], xs[|xs| - 1];
      KeptSnoc(xs, key);
      CollectKeysSucceeds(init, key);
      if key(last).Some? {
        assert key(last).value.Success?;
        assert CollectKeys(xs, key) == Success(Kept(init, key) + [key(last).value.value]);
      } else {
        assert Kept(init, key) + KeyOf(key, last) == Kept(init, key);
      }
    }
  }

  /** Once a prefix has thrown, the rest of the inputs change nothing. */
  lemma {:induction false} CollectKeysStops<T>(xs: seq<T>, n: nat, key: T -> Option<Result<int, ConvertError>>)
    requires n <= |xs| && CollectKeys(xs[..n], key).Failure?
    ensures CollectKeys(xs, key) == CollectKeys(xs[..n], key)
    decreases |xs| - n
  {
    if n < |xs| {
      assert xs[..n + 1][..n] == xs[..n];
      CollectKeysStops(xs, n + 1, key);
    } else {
      assert xs[..n] == xs;
    }
  }

  /** The walk fails exactly with the exception of the first input that throws. */
  lemma {:induction false} CollectKeysFails<T>(xs: seq<T>, j: nat, key: T -> Option<Result<int, ConvertError>>)
    requires j < |xs| && Throws(key, xs[j])
    requires forall i :: 0 <= i < j ==> !Throws(key, xs[i])
    ensures CollectKeys(xs, key) == Failure(key(xs[j]).value.error)
  {
    var pre := xs[..j + 1];
    assert pre[..j] == xs[..j];
    CollectKeysSucceeds(xs[..j], key);
    CollectKeysStops(xs, j + 1, key);
  }

  /** One step of the walk. */
  lemma {:induction false} CollectKeysStep<T>(xs: seq<T>, n: nat, key: T -> Option<Result<int, ConvertError>>)
    requires n < |xs|
    ensures CollectKeys(xs[..n + 1], key)
         == var before := CollectKeys(xs[..n], key);
            if before.Failure? then before
            else
              match key(xs[n])
              case None => before
              case Some(Failure(e)) => Failure(e)
              case Some(Success(k)) => Success(before.value + [k])
  {
    assert xs[..n + 1][..n] == xs[..n];
  }

  /** The index built from the archive. */
  function ArchiveKeys(articles: seq<EHentaiResultArticle>): Result<seq<int>, ConvertError>
  {
    CollectKeys(articles, ArchiveContribution)
  }

  /** The index built from the table, rows in Id order. */
  function DatabaseKeys(rows: seq<HitomiColumnModel>): Result<seq<int>, ConvertError>
  {
    CollectKeys(rows, RowContribution)
  }

  /** Without an exception, the archive gives one key per gallery, in archive order. */
  lemma {:induction false} ArchiveKeysSpec(articles: seq<EHentaiResultArticle>)
    requires forall i :: 0 <= i < |articles| ==> ArchiveKey(articles[i].url).Success?
    ensures ArchiveKeys(articles).Success?
    ensures |ArchiveKeys(articles).value| == |articles|
    ensures forall i :: 0 <= i < |articles| ==> ArchiveKeys(articles).value[i] == ArchiveKey(articles[i].url).value
  {
    CollectKeysSucceeds(articles, ArchiveContribution);
    KeptEvery(articles);
  }

  lemma {:induction false} KeptEvery(articles: seq<EHentaiResultArticle>)
    requires forall i :: 0 <= i < |articles| ==> ArchiveKey(articles[i].url).Success?
    ensures |Kept(articles, ArchiveContribution)| == |articles|
    ensures forall i :: 0 <= i < |articles| ==> Kept(articles, ArchiveContribution)[i] == ArchiveKey(articles[i].url).value
  {
    if articles != [] {
      KeptEvery(articles[1..]);
      assert forall i :: 1 <= i < |articles| ==> articles[1..][i - 1] == articles[i];
    }
  }

  /** The rows with a non-null EHash, in order. */
  function Hashed(rows: seq<HitomiColumnModel>): (r: seq<HitomiColumnModel>)
    ensures forall i :: 0 <= i < |r| ==> r[i].eHash.Some?
  {
    if rows == [] then []
    else (if rows[0].eHash.Some? then [rows[0]] else []) + Hashed(rows[1..])
  }

  /** Every non-null hash parses. */
  predicate HashesParse(rows: seq<HitomiColumnModel>)
  {
    forall i :: 0 <= i < |rows| && rows[i].eHash.Some? ==> ParseHex64(rows[i].eHash.value).Success?
  }

  /**
   * The table gives one key per row with a hash, in Id order, built from
   * the row's Id and its hash; and it gives one as soon as every hash
   * parses, rows without a hash being no obstacle.
   */
  lemma {:induction false} DatabaseKeysSpec(rows: seq<HitomiColumnModel>)
    ensures DatabaseKeys(rows).Success? <==> HashesParse(rows)
    ensures DatabaseKeys(rows).Success? ==>
      var hashed := Hashed(rows);
      && |DatabaseKeys(rows).value| == |hashed|
      && forall i :: 0 <= i < |hashed| ==>
           && ParseHex64(hashed[i].eHash.value).Success?
           && DatabaseKeys(rows).value[i] == PackKey(hashed[i].id, ParseHex64(hashed[i].eHash.value).value)
  {
    if HashesParse(rows) {
      assert NoneThrows(rows, RowContribution);
      CollectKeysSucceeds(rows, RowContribution);
      KeptHashed(rows);
    } else {
      var j := FirstThrow(rows);
      CollectKeysFails(rows, j, RowContribution);
    }
  }

  /** The key kept for row i of a table whose hashes all parse. */
  predicate KeyMatches(k: int, row: HitomiColumnModel)
  {
    row.eHash.Some? && ParseHex64(row.eHash.value).Success? && k == PackKey(row.id, ParseHex64(row.eHash.value).value)
  }

  lemma {:induction false} KeptHashed(rows: seq<HitomiColumnModel>)
    requires HashesParse(rows) && NoneThrows(rows, RowContribution)
    ensures |Kept(rows, RowContribution)| == |Hashed(rows)|
    ensures forall i :: 0 <= i < |Hashed(rows)| ==>
      && ParseHex64(Hashed(rows)[i].eHash.value).Success?
      && Kept(rows, RowContribution)[i] == PackKey(Hashed(rows)[i].id, ParseHex64(Hashed(rows)[i].eHash.value).value)
  {
    KeptMatches(rows);
    var kept, hashed := Kept(rows, RowContribution), Hashed(rows);
    forall i | 0 <= i < |hashed|
      ensures ParseHex64(hashed[i].eHash.value).Success?
      ensures kept[i] == PackKey(hashed[i].id, ParseHex64(hashed[i].eHash.value).value)
    {
      assert KeyMatches(kept[i], hashed[i]);
    }
  }

  lemma {:induction false} KeptMatches(rows: seq<HitomiColumnModel>)
    requires HashesParse(rows) && NoneThrows(rows, RowContribution)
    ensures |Kept(rows, RowContribution)| == |Hashed(rows)|
    ensures forall i :: 0 <= i < |Hashed(rows)| ==> KeyMatches(Kept(rows, RowContribution)[i], Hashed(rows)[i])
    decreases |rows|
  {
    if rows != [] {
      var tail := rows[1..];
      assert HashesParse(tail) by {
        assert forall i :: 0 <= i < |tail| ==> tail[i] == rows[i + 1];
      }
      KeptCons(rows, RowContribution);
      KeptMatches(tail);
      KeptMatchesStep(rows);
    }
  }

  lemma {:induction false} KeptMatchesStep(rows: seq<HitomiColumnModel>)
    requires rows != [] && HashesParse(rows) && NoneThrows(rows, RowContribution)
    requires !Throws(RowContribution, rows[0]) && NoneThrows(rows[1..], RowContribution)
    requires Kept(rows, RowContribution) == KeyOf(RowContribution, rows[0]) + Kept(rows[1..], RowContribution)
    requires |Kept(rows[1..], RowContribution)| == |Hashed(rows[1..])|
    requires forall i :: 0 <= i < |Hashed(rows[1..])| ==> KeyMatches(Kept(rows[1..], RowContribution)[i], Hashed(rows[1..])[i])
    ensures |Kept(rows, RowContribution)| == |Hashed(rows)|
    ensures forall i :: 0 <= i < |Hashed(rows)| ==> KeyMatches(Kept(rows, RowContribution)[i], Hashed(rows)[i])
  {
    var head := KeyOf(RowContribution, rows[0]);
    var h := if rows[0].eHash.Some? then [rows[0]] else [];
    assert Hashed(rows) == h + Hashed(rows[1..]);
    assert |head| == |h|;
    assert forall i :: 0 <= i < |h| ==> KeyMatches(head[i], h[i]);
  }

  /** The first row whose hash does not parse. */
  lemma {:induction false} FirstThrow(rows: seq<HitomiColumnModel>) returns (j: nat)
    requires !HashesParse(rows)
    ensures j < |rows| && Throws(RowContribution, rows[j])
    ensures forall i :: 0 <= i < j ==> !Throws(RowContribution, rows[i])
  {
    if HashesParse(rows[..|rows| - 1]) {
      j := |rows| - 1;
      assert forall i :: 0 <= i < j ==> rows[..|rows| - 1][i] == rows[i];
    } else {
      j := FirstThrow(rows[..|rows| - 1]);
    }
  }

  // ---------------------------------------------------------------------------
  // The two loops of ProcessCreateEHentaiInverseTable

  /** The archive branch: a foreach over the galleries, the first exception leaving the method. */
  method ArchiveIndex(articles: seq<EHentaiResultArticle>) returns (r: Result<seq<int>, ConvertError>)
    ensures r == ArchiveKeys(articles)
  {
    var index: seq<int> := [];
    var n := 0;
    while n < |articles|
      invariant 0 <= n <= |articles|
      invariant CollectKeys(articles[..n], ArchiveContribution) == Success(index)
    {
      var key := ArchiveKey(articles[n].url);
      CollectKeysStep(articles, n, ArchiveContribution);
      if key.Failure? {
        CollectKeysStops(articles, n + 1, ArchiveContribution);
        return Failure(key.error);
      }
      index := index + [key.value];
      n := n + 1;
    }
    assert articles[..n] == articles;
    return Success(index);
  }

  /**
   * The low-performance branch: `for (i = 0; i < count; i += perLoop)` over
   * `LIMIT perLoop OFFSET i` pages of the table in Id order, skipping rows
   * without a hash; the first hash that does not parse leaves the method.
   */
  method DatabaseIndex(table: seq<HitomiColumnModel>) returns (r: Result<seq<int>, ConvertError>)
    ensures r == DatabaseKeys(table)
  {
    ghost var cs := RowContributions(table);
    var count := |table|;
    var index: seq<int> := [];
    var i := 0;
    while i < count
      invariant 0 <= i
      invariant CollectKeys(cs[..if i <= count then i else count], Identity) == Success(index)
    {
      var query := LimitOffset(table, PerLoop, i);
      r := IndexPage(table, cs, query, i, index);
      if r.Failure? {
        CollectRows(table, cs);
        return;
      }
      index := r.value;
      i := i + PerLoop;
    }
    assert cs[..count] == cs;
    CollectRows(table, cs);
    return Success(index);
  }

  /**
   * The inner loop of the low-performance branch over one page, the rows
   * from offset i on: the index extended by the page's keys, or the walk's
   * exception.
   */
  method IndexPage(table: seq<HitomiColumnModel>, ghost cs: seq<Option<Result<int, ConvertError>>>,
                   query: seq<HitomiColumnModel>, i: nat, index: seq<int>)
    returns (r: Result<seq<int>, ConvertError>)
    requires |cs| == |table| && i < |table| && query == LimitOffset(table, PerLoop, i)
    requires forall k {:trigger RowContribution(table[k])} :: 0 <= k < |table| ==> cs[k] == RowContribution(table[k])
    requires CollectKeys(cs[..i], Identity) == Success(index)
    ensures r.Success? ==> CollectKeys(cs[..if i + PerLoop <= |table| then i + PerLoop else |table|], Identity) == r
    ensures r.Failure? ==> CollectKeys(cs, Identity) == r
  {
    ghost var stop := if i + PerLoop <= |table| then i + PerLoop else |table|;
    assert query == table[i..stop];
    var keys := index;
    var j := 0;
    while j < |query|
      invariant 0 <= j <= |query| == stop - i
      invariant CollectKeys(cs[..i + j], Identity) == Success(keys)
    {
      assert query[j] == table[i + j];
      assert cs[i + j] == RowContribution(table[i + j]);
      var row := IndexRow(cs, i + j, query[j], keys);
      if row.Failure? {
        return row;
      }
      keys := row.value;
      j := j + 1;
    }
    return Success(keys);
  }

  /** The body of the row loop: one row's key appended, or its exception. */
  method IndexRow(ghost cs: seq<Option<Result<int, ConvertError>>>, ghost n: nat,
                  article: HitomiColumnModel, keys: seq<int>)
    returns (r: Result<seq<int>, ConvertError>)
    requires n < |cs| && cs[n] == RowContribution(article)
    requires CollectKeys(cs[..n], Identity) == Success(keys)
    ensures r.Success? ==> CollectKeys(cs[..n + 1], Identity) == r
    ensures r.Failure? ==> CollectKeys(cs, Identity) == r
  {
    CollectKeysStep(cs, n, Identity);
    if article.eHash.Some? {
      var yi := ParseHex64(article.eHash.value);
      if yi.Failure? {
        assert cs[n] == Some(Failure(yi.error));
        CollectKeysStops(cs, n + 1, Identity);
        return Failure(yi.error);
      }
      assert cs[n] == Some(Success(PackKey(article.id, yi.value)));
      return Success(keys + [PackKey(article.id, yi.value)]);
    } else {
      assert cs[n] == None;
      return Success(keys);
    }
  }
}
