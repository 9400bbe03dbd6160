/**
 * The text escaping that hsync applies to every free-text column before it
 * embeds the column between double quotes of an INSERT statement, and the
 * reading of such a double-quoted literal by MySQL (section "String Literals"
 * of the MySQL reference manual, with neither NO_BACKSLASH_ESCAPES nor
 * ANSI_QUOTES in sql_mode: the first would make the backslash an ordinary
 * character, the second would read "..." as an identifier).
 */
module SqlLiteral {
  import opened Wrappers

  const FullWidthBackslash: char := '\U{FF3C}'
  const FullWidthQuote: char := '\U{FF02}'

  /** C#'s string.Replace for a one-character pattern: every occurrence of c becomes repl. */
  function ReplaceChar(s: string, c: char, repl: string): string
  {
    if s == [] then [] else (if s[0] == c then repl else [s[0]]) + ReplaceChar(s[1..], c, repl)
  }

  /**
   * _ggg as written: null becomes "", otherwise four Replace calls in a row
   * (the UTF-8 encode/decode before them is the identity on Dafny strings).
   */
  function Ggg(nu: Option<string>): string
  {
    match nu
    case None => ""
    case Some(s) => GggPasses(s)
  }

  function GggPasses(s: string): string
  {
    var pass1 := ReplaceChar(s, '\\', "\\\\");
    var pass2 := ReplaceChar(pass1, '"', "\\\"");
    var pass3 := ReplaceChar(pass2, FullWidthBackslash, "\\\\");
    ReplaceChar(pass3, FullWidthQuote, "\\\"")
  }

  /** The escape of one character, as the four passes together treat it. */
  function EscapeChar(c: char): string
  {
    if c == '\\' || c == FullWidthBackslash then "\\\\"
    else if c == '"' || c == FullWidthQuote then "\\\""
    else [c]
  }

  function Escape(s: string): string
  {
    if s == [] then [] else EscapeChar(s[0]) + Escape(s[1..])
  }

  /** Full-width backslash and quote folded into their ASCII forms. */
  function NormalizeChar(c: char): char
  {
    if c == FullWidthBackslash then '\\' else if c == FullWidthQuote then '"' else c
  }

  function Normalize(s: string): string
  {
    seq(|s|, i requires 0 <= i < |s| => NormalizeChar(s[i]))
  }

  predicate Special(c: char)
  {
    c == '\\' || c == '"' || c == FullWidthBackslash || c == FullWidthQuote
  }

  // ---------------------------------------------------------------------------
  // The passes are one character-wise map

  lemma {:induction false} ReplaceCharAppend(a: string, b: string, c: char, repl: string)
    ensures ReplaceChar(a + b, c, repl) == ReplaceChar(a, c, repl) + ReplaceChar(b, c, repl)
  {
    if a == [] {
      assert a + b == b;
    } else {
      assert (a + b)[0] == a[0];
      assert (a + b)[1..] == a[1..] + b;
      ReplaceCharAppend(a[1..], b, c, repl);
    }
  }

  lemma {:induction false} ReplaceCharAbsent(s: string, c: char, repl: string)
    requires c !in s
    ensures ReplaceChar(s, c, repl) == s
  {
    if s != [] {
      ReplaceCharAbsent(s[1..], c, repl);
    }
  }

  lemma {:induction false} GggPassesAppend(a: string, b: string)
    ensures GggPasses(a + b) == GggPasses(a) + GggPasses(b)
  {
    var p1a, p1b := ReplaceChar(a, '\\', "\\\\"), ReplaceChar(b, '\\', "\\\\");
    ReplaceCharAppend(a, b, '\\', "\\\\");
    var p2a, p2b := ReplaceChar(p1a, '"', "\\\""), ReplaceChar(p1b, '"', "\\\"");
    ReplaceCharAppend(p1a, p1b, '"', "\\\"");
    var p3a, p3b := ReplaceChar(p2a, FullWidthBackslash, "\\\\"), ReplaceChar(p2b, FullWidthBackslash, "\\\\");
    ReplaceCharAppend(p2a, p2b, FullWidthBackslash, "\\\\");
    ReplaceCharAppend(p3a, p3b, FullWidthQuote, "\\\"");
  }

  lemma {:induction false} GggPassesChar(c: char)
    ensures GggPasses([c]) == EscapeChar(c)
  {
    var p1 := ReplaceChar([c], '\\', "\\\\");
    var p2 := ReplaceChar(p1, '"', "\\\"");
    var p3 := ReplaceChar(p2, FullWidthBackslash, "\\\\");
    assert ReplaceChar([c][1..], '\\', "\\\\") == [];
    if c == '\\' {
      assert p1 == "\\\\";
      ReplaceCharAbsent(p1, '"', "\\\"");
      ReplaceCharAbsent(p2, FullWidthBackslash, "\\\\");
      ReplaceCharAbsent(p3, FullWidthQuote, "\\\"");
    } else {
      assert p1 == [c];
      assert ReplaceChar([c][1..], '"', "\\\"") == [];
      if c == '"' {
        assert p2 == "\\\"";
        ReplaceCharAbsent(p2, FullWidthBackslash, "\\\\");
        ReplaceCharAbsent(p3, FullWidthQuote, "\\\"");
      } else {
        assert p2 == [c];
        assert ReplaceChar([c][1..], FullWidthBackslash, "\\\\") == [];
        if c == FullWidthBackslash {
          assert p3 == "\\\\";
          ReplaceCharAbsent(p3, FullWidthQuote, "\\\"");
        } else {
          assert p3 == [c];
          assert ReplaceChar([c][1..], FullWidthQuote, "\\\"") == [];
        }
      }
    }
  }

  /** The four Replace calls of _ggg amount to replacing each character by its escape. */
  lemma {:induction false} GggIsCharwise(s: string)
    ensures Ggg(Some(s)) == Escape(s)
  {
    if s != [] {
      assert s == [s[0]] + s[1..];
      GggPassesAppend([s[0]], s[1..]);
      GggPassesChar(s[0]);
      GggIsCharwise(s[1..]);
    }
  }

  /** On text without backslashes, quotes and their full-width forms, _ggg changes nothing. */
  lemma {:induction false} GggIdentity(s: string)
    requires forall i :: 0 <= i < |s| ==> !Special(s[i])
    ensures Ggg(Some(s)) == s
  {
    GggIsCharwise(s);
    EscapeIdentity(s);
  }

  lemma {:induction false} EscapeIdentity(s: string)
    requires forall i :: 0 <= i < |s| ==> !Special(s[i])
    ensures Escape(s) == s
  {
    if s != [] {
      EscapeIdentity(s[1..]);
    }
  }

  // ---------------------------------------------------------------------------
  // Escaped text: the shape of _ggg's output, and what MySQL makes of it

  /**
   * A literal body in which every backslash starts a pair "\\" or "\"" and
   * no quote stands alone.
   */
  predicate Clean(b: string)
    decreases |b|
  {
    if b == [] then true
    else if b[0] == '\\' then |b| >= 2 && (b[1] == '\\' || b[1] == '"') && Clean(b[2..])
    else b[0] != '"' && Clean(b[1..])
  }

  /** The text a Clean body stands for: each escape pair becomes its second character. */
  function Unescape(b: string): string
    requires Clean(b)
    decreases |b|
  {
    if b == [] then []
    else if b[0] == '\\' then [b[1]] + Unescape(b[2..])
    else [b[0]] + Unescape(b[1..])
  }

  /** MySQL's meaning of the backslash sequence "\x" inside a string literal. */
  function MysqlEscape(x: char): string
  {
    match x
    case '0' => "\0"
    case 'b' => "\U{0008}"
    case 'n' => "\n"
    case 'r' => "\r"
    case 't' => "\t"
    case 'Z' => "\U{001A}"
    case '%' => "\\%"
    case '_' => "\\_"
    case _ => [x]
  }

  function Prepend(d: string, n: nat, rest: Option<(string, nat)>): Option<(string, nat)>
  {
    match rest
    case None => None
    case Some((d', n')) => Some((d + d', n + n'))
  }

  /**
   * Reads the body of a double-quoted literal whose opening quote has been
   * consumed: the decoded text and the number of characters consumed up to
   * and including the closing quote, or None when the literal never ends.
   * Inside the literal "" stands for one quote.
   */
  function ReadQuoted(t: string): (r: Option<(string, nat)>)
    ensures r.Some? ==> 0 < r.value.1 <= |t| && t[r.value.1 - 1] == '"'
    decreases |t|
  {
    if t == [] then None
    else if t[0] == '"' then
      if |t| > 1 && t[1] == '"' then Prepend("\"", 2, ReadQuoted(t[2..])) else Some(("", 1))
    else if t[0] == '\\' then
      if |t| == 1 then None else Prepend(MysqlEscape(t[1]), 2, ReadQuoted(t[2..]))
    else Prepend([t[0]], 1, ReadQuoted(t[1..]))
  }

  /**
   * A Clean body followed by a closing quote is read back exactly: the literal
   * ends at that quote, not earlier, and decodes to Unescape(b).
   */
  lemma {:induction false} ReadClean(b: string, rest: string)
    requires Clean(b)
    requires rest == [] || rest[0] != '"'
    ensures ReadQuoted(b + "\"" + rest) == Some((Unescape(b), |b| + 1))
    decreases |b|
  {
    if b == [] {
      var t := b + "\"" + rest;
      assert t == ['"'] + rest;
      assert !(|t| > 1 && t[1] == '"');
    } else if b[0] == '\\' {
      ReadClean(b[2..], rest);
      ReadEscapePair(b, rest);
    } else {
      ReadClean(b[1..], rest);
      ReadPlainChar(b, rest);
    }
  }

  /** An escape pair at the front of a Clean body decodes to its second character. */
  lemma {:induction false} ReadEscapePair(b: string, rest: string)
    requires Clean(b) && b != [] && b[0] == '\\'
    requires ReadQuoted(b[2..] + "\"" + rest) == Some((Unescape(b[2..]), |b[2..]| + 1))
    ensures ReadQuoted(b + "\"" + rest) == Some((Unescape(b), |b| + 1))
  {
    var t, t' := b + "\"" + rest, b[2..] + "\"" + rest;
    assert |t| >= 2 && t[0] == '\\' && t[1] == b[1] && t[2..] == t';
    ReadQuotedEscape(t, t');
    var x, u := b[1], Unescape(b[2..]);
    assert MysqlEscape(x) == [x];
    assert Unescape(b) == [x] + u;
  }

  lemma {:induction false} ReadQuotedEscape(t: string, t': string)
    requires |t| >= 2 && t[0] == '\\' && t[2..] == t'
    ensures ReadQuoted(t) == Prepend(MysqlEscape(t[1]), 2, ReadQuoted(t'))
  {
  }

  /** A plain character at the front of a Clean body stands for itself. */
  lemma {:induction false} ReadPlainChar(b: string, rest: string)
    requires Clean(b) && b != [] && b[0] != '\\'
    requires ReadQuoted(b[1..] + "\"" + rest) == Some((Unescape(b[1..]), |b[1..]| + 1))
    ensures ReadQuoted(b + "\"" + rest) == Some((Unescape(b), |b| + 1))
  {
    var t := b + "\"" + rest;
    assert t[0] == b[0];
    assert t[1..] == b[1..] + "\"" + rest;
  }

  lemma {:induction false} CleanAppend(a: string, b: string)
    requires Clean(a) && Clean(b)
    ensures Clean(a + b) && Unescape(a + b) == Unescape(a) + Unescape(b)
    decreases |a|
  {
    if a == [] {
      assert a + b == b;
    } else {
      var p, a' := SplitFront(a);
      CleanAppend(a', b);
      CleanCons(p, a');
      CleanCons(p, a' + b);
      ConsAppend(p, a', b);
    }
  }

  /** The first escape pair or plain character of a non-empty Clean body, and the rest. */
  lemma {:induction false} SplitFront(a: string) returns (p: string, a': string)
    requires Clean(a) && a != []
    ensures a == p + a' && Clean(a') && |a'| < |a|
    ensures (|p| == 2 && p[0] == '\\' && (p[1] == '\\' || p[1] == '"'))
         || (|p| == 1 && p[0] != '\\' && p[0] != '"')
  {
    var n := if a[0] == '\\' then 2 else 1;
    p, a' := a[..n], a[n..];
    assert a == p + a';
  }

  /** The inductive step of CleanAppend, with the front piece p already decoded. */
  lemma {:induction false} ConsAppend(p: string, a: string, b: string)
    requires p != [] && Clean(a) && Clean(b) && Clean(a + b) && Clean(p + a) && Clean(p + (a + b))
    requires Unescape(p + a) == [p[|p| - 1]] + Unescape(a)
    requires Unescape(p + (a + b)) == [p[|p| - 1]] + Unescape(a + b)
    requires Unescape(a + b) == Unescape(a) + Unescape(b)
    ensures Clean(p + a + b) && Unescape(p + a + b) == Unescape(p + a) + Unescape(b)
  {
    Regroup(p, a, b);
    Assoc([p[|p| - 1]], Unescape(a), Unescape(b));
  }

  lemma {:induction false} Regroup(p: string, a: string, b: string)
    requires Clean(p + (a + b))
    ensures Clean(p + a + b) && Unescape(p + a + b) == Unescape(p + (a + b))
  {
    assert p + a + b == p + (a + b);
  }

  lemma {:induction false} Assoc<T>(x: seq<T>, y: seq<T>, z: seq<T>)
    ensures x + (y + z) == (x + y) + z
  {
  }

  /** An escape pair or a plain character in front of a Clean body. */
  lemma {:induction false} CleanCons(p: string, a: string)
    requires (|p| == 2 && p[0] == '\\' && (p[1] == '\\' || p[1] == '"'))
          || (|p| == 1 && p[0] != '\\' && p[0] != '"')
    requires Clean(a)
    ensures Clean(p + a) && Unescape(p + a) == [p[|p| - 1]] + Unescape(a)
  {
    assert (p + a)[|p|..] == a;
  }

  /** _ggg's output is Clean, and unescaping it gives the input with full-width forms folded. */
  lemma {:induction false} EscapeRoundTrip(s: string)
    ensures Clean(Escape(s))
    ensures Unescape(Escape(s)) == Normalize(s)
  {
    if s != [] {
      var e := EscapeChar(s[0]);
      assert Clean(e) && Unescape(e) == [NormalizeChar(s[0])] by {
        if Special(s[0]) {
          assert e[2..] == [];
          assert Unescape(e) == [e[1]] + Unescape(e[2..]);
        } else {
          assert e[1..] == [];
        }
      }
      EscapeRoundTrip(s[1..]);
      CleanAppend(e, Escape(s[1..]));
      assert Normalize(s) == [NormalizeChar(s[0])] + Normalize(s[1..]);
    }
  }

  /** Text with no backslash or quote is its own escaped body. */
  lemma {:induction false} PlainIsClean(s: string)
    requires '\\' !in s && '"' !in s
    ensures Clean(s) && Unescape(s) == s
  {
    if s != [] {
      PlainIsClean(s[1..]);
    }
  }

  /**
   * The field property that _initServerArticles relies on: the output of
   * _ggg between two double quotes is one MySQL literal, ending at the
   * closing quote and decoding to the original text with full-width
   * backslash and quote folded to ASCII.
   */
  lemma {:induction false} GggFieldRoundTrip(nu: Option<string>, rest: string)
    requires rest == [] || rest[0] != '"'
    ensures ReadQuoted(Ggg(nu) + "\"" + rest)
         == Some((if nu.Some? then Normalize(nu.value) else "", |Ggg(nu)| + 1))
  {
    if nu.Some? {
      GggIsCharwise(nu.value);
      EscapeRoundTrip(nu.value);
      ReadClean(Escape(nu.value), rest);
    } else {
      assert Ggg(nu) + "\"" + rest == ['"'] + rest;
    }
  }

  /** Without full-width backslash or quote in the text, the round trip is exact. */
  lemma {:induction false} NormalizeIdentity(s: string)
    requires FullWidthBackslash !in s && FullWidthQuote !in s
    ensures Normalize(s) == s
  {
    if s != [] {
      NormalizeIdentity(s[1..]);
    }
  }
}
