/**
 * The rows that hsync uploads (HitomiColumnModel) and the text of the
 * INSERT statements built from them in _initServerArticles and
 * _initServerArticlePages, with a reader for the VALUES list that shows the
 * rendered rows parse back into their columns.
 */
module ArticleRows {
  import opened Wrappers
  import opened SqlLiteral

  /** A C# int: Id and Files are 32-bit columns. */
  type Int32 = x: int | -0x8000_0000 <= x < 0x8000_0000

  /** A calendar instant as DateTime holds it; only its "yyyy-MM-dd HH:mm:ss" text is used. */
  datatype DateTime = DateTime(year: nat, month: nat, day: nat, hour: nat, minute: nat, second: nat)

  /**
   * One row of the HitomiColumnModel table.  Nullable text columns are
   * Option<string>; Published is a nullable DateTime.
   */
  datatype HitomiColumnModel = HitomiColumnModel(
    title: Option<string>,
    id: Int32,
    eHash: Option<string>,
    itemType: Option<string>,
    artists: Option<string>,
    characters: Option<string>,
    groups: Option<string>,
    language: Option<string>,
    series: Option<string>,
    tags: Option<string>,
    uploader: Option<string>,
    published: Option<DateTime>,
    files: Int32,
    classification: Option<string>,
    existOnHitomi: bool)

  // ---------------------------------------------------------------------------
  // Rendering numbers, booleans and dates as C# string interpolation does

  function DigitChar(d: nat): char
    requires d < 10
  {
    "0123456789"[d]
  }

  predicate IsDigit(c: char)
  {
    '0' <= c <= '9'
  }

  function Digits(n: nat): (r: string)
    ensures |r| > 0 && forall i :: 0 <= i < |r| ==> IsDigit(r[i])
  {
    if n < 10 then [DigitChar(n)] else Digits(n / 10) + [DigitChar(n % 10)]
  }

  /** Decimal text of an int, with a leading '-' when negative. */
  function IntText(n: int): string
  {
    if n < 0 then "-" + Digits(-n) else Digits(n)
  }

  /** C#'s bool.ToString(). */
  function BoolText(b: bool): string
  {
    if b then "True" else "False"
  }

  /** Decimal digits of n, left-padded with zeros to at least width characters. */
  function ZeroPad(n: nat, width: nat): (r: string)
    ensures forall i :: 0 <= i < |r| ==> IsDigit(r[i])
  {
    var d := Digits(n);
    if |d| >= width then d else seq(width - |d|, _ => '0') + d
  }

  /** DateTime.ToString("yyyy-MM-dd HH:mm:ss"). */
  function FormatDateTime(d: DateTime): string
  {
    ZeroPad(d.year, 4) + "-" + ZeroPad(d.month, 2) + "-" + ZeroPad(d.day, 2) + " "
      + ZeroPad(d.hour, 2) + ":" + ZeroPad(d.minute, 2) + ":" + ZeroPad(d.second, 2)
  }

  function PublishedText(p: Option<DateTime>): string
  {
    if p.Some? then FormatDateTime(p.value) else ""
  }

  /** A null string interpolates as the empty string. */
  function OrEmpty(s: Option<string>): string
  {
    if s.Some? then s.value else ""
  }

  // ---------------------------------------------------------------------------
  // A row tuple as a list of fields

  /** A column as it stands in a tuple: between double quotes, or bare. */
  datatype Field = Quoted(body: string) | Bare(token: string)

  function RenderField(f: Field): string
  {
    match f
    case Quoted(b) => "\"" + b + "\""
    case Bare(t) => t
  }

  /** The fields separated by ", ", as the interpolated row template writes them. */
  function RenderFields(fs: seq<Field>): string
  {
    if fs == [] then ""
    else if |fs| == 1 then RenderField(fs[0])
    else RenderField(fs[0]) + ", " + RenderFields(fs[1..])
  }

  /** Column i of a row of eharticles, in the order of the INSERT column list. */
  function ArticleField(a: HitomiColumnModel, i: nat): Field
    requires i < 15
  {
    match i
    case 0 => Quoted(Ggg(a.title))
    case 1 => Bare(IntText(a.id))
    case 2 => Quoted(OrEmpty(a.eHash))
    case 3 => Quoted(Ggg(a.itemType))
    case 4 => Quoted(Ggg(a.artists))
    case 5 => Quoted(Ggg(a.characters))
    case 6 => Quoted(Ggg(a.groups))
    case 7 => Quoted(Ggg(a.language))
    case 8 => Quoted(Ggg(a.series))
    case 9 => Quoted(Ggg(a.tags))
    case 10 => Quoted(Ggg(a.uploader))
    case 11 => Quoted(PublishedText(a.published))
    case 12 => Bare(IntText(a.files))
    case 13 => Quoted(Ggg(a.classification))
    case 14 => Bare(BoolText(a.existOnHitomi))
  }

  function ArticleFields(a: HitomiColumnModel): seq<Field>
  {
    seq(15, i requires 0 <= i < 15 => ArticleField(a, i))
  }

  function ArticleTuple(a: HitomiColumnModel): string
  {
    "(" + RenderFields(ArticleFields(a)) + ")"
  }

  /** The (Id, Pages) tuple of article_pages. */
  function PagesTuple(a: HitomiColumnModel): string
  {
    "(" + RenderFields([Bare(IntText(a.id)), Bare(IntText(a.files))]) + ")"
  }

  /** `string.Join(sep, parts)`; no parts join to the empty string. */
  function Join(parts: seq<string>, sep: char): string
  {
    if parts == [] then ""
    else if |parts| == 1 then parts[0]
    else parts[0] + [sep] + Join(parts[1..], sep)
  }

  const ArticlesInsertHead: string :=
    "INSERT INTO eharticles (Title, Id, EHash, Type, Artists, Characters, Groups, Language, Series, "
    + "Tags, Uploader, Published, Files, Class, ExistOnHitomi) VALUES "

  const PagesInsertHead: string := "INSERT INTO article_pages (Id, Pages) VALUES "

  /** The statement one batch of _initServerArticles executes. */
  function InsertArticles(batch: seq<HitomiColumnModel>): string
  {
    ArticlesInsertHead + Join(ArticleTuples(batch), ',')
  }

  function ArticleTuples(batch: seq<HitomiColumnModel>): seq<string>
  {
    seq(|batch|, i requires 0 <= i < |batch| => ArticleTuple(batch[i]))
  }

  /** The single statement _initServerArticlePages executes. */
  function InsertArticlePages(items: seq<HitomiColumnModel>): string
  {
    PagesInsertHead + Join(PagesTuples(items), ',')
  }

  function PagesTuples(items: seq<HitomiColumnModel>): seq<string>
  {
    seq(|items|, i requires 0 <= i < |items| => PagesTuple(items[i]))
  }

  // ---------------------------------------------------------------------------
  // Reading a VALUES list back

  /** A value read from a tuple: the decoded text of a literal, or a bare token. */
  datatype SqlValue = Text(text: string) | Token(token: string)

  function TokenLength(t: string): (k: nat)
    ensures k <= |t|
  {
    if t == [] || t[0] == ',' || t[0] == ')' then 0 else 1 + TokenLength(t[1..])
  }

  /** One value and the number of characters it takes. */
  function LexValue(t: string): (r: Option<(SqlValue, nat)>)
    ensures r.Some? ==> 0 < r.value.1 <= |t|
  {
    if t == [] then None
    else if t[0] == '"' then
      match ReadQuoted(t[1..])
      case None => None
      case Some((d, n)) => Some((Text(d), n + 1))
    else
      var k := TokenLength(t);
      if k == 0 then None else Some((Token(t[..k]), k))
  }

  /** Values separated by ", " up to and including the closing parenthesis. */
  function LexValues(t: string): (r: Option<(seq<SqlValue>, nat)>)
    ensures r.Some? ==> 0 < r.value.1 <= |t|
    decreases |t|
  {
    var first := LexValue(t);
    if first.None? then None
    else
      var (v, n) := first.value;
      if n < |t| && t[n] == ')' then Some(([v], n + 1))
      else if n + 1 < |t| && t[n] == ',' && t[n + 1] == ' ' then
        var more := LexValues(t[n + 2..]);
        if more.None? then None else Some(([v] + more.value.0, n + 2 + more.value.1))
      else None
  }

  /** One parenthesised tuple. */
  function LexTuple(t: string): (r: Option<(seq<SqlValue>, nat)>)
    ensures r.Some? ==> 0 < r.value.1 <= |t|
  {
    if t != [] && t[0] == '(' then
      match LexValues(t[1..])
      case None => None
      case Some((vs, n)) => Some((vs, n + 1))
    else None
  }

  /** A whole VALUES list: tuples separated by ',' and nothing after the last. */
  function LexTuples(t: string): Option<seq<seq<SqlValue>>>
    decreases |t|
  {
    match LexTuple(t)
    case None => None
    case Some((vs, n)) =>
      if n == |t| then Some([vs])
      else if t[n] == ',' then
        match LexTuples(t[n + 1..])
        case None => None
        case Some(vss) => Some([vs] + vss)
      else None
  }

  predicate WellFormed(f: Field)
  {
    match f
    case Quoted(b) => Clean(b)
    case Bare(t) => t != [] && t[0] != '"' && ',' !in t && ')' !in t
  }

  function Decode(f: Field): SqlValue
    requires WellFormed(f)
  {
    match f
    case Quoted(b) => Text(Unescape(b))
    case Bare(t) => Token(t)
  }

  function DecodeAll(fs: seq<Field>): seq<SqlValue>
    requires forall i :: 0 <= i < |fs| ==> WellFormed(fs[i])
  {
    seq(|fs|, i requires 0 <= i < |fs| => Decode(fs[i]))
  }

  lemma {:induction false} TokenLengthOf(tok: string, rest: string)
    requires ',' !in tok && ')' !in tok
    requires rest != [] && (rest[0] == ',' || rest[0] == ')')
    ensures TokenLength(tok + rest) == |tok|
  {
    if tok == [] {
      assert tok + rest == rest;
    } else {
      assert (tok + rest)[0] == tok[0];
      assert (tok + rest)[1..] == tok[1..] + rest;
      TokenLengthOf(tok[1..], rest);
    }
  }

  /** A rendered field followed by a separator or the closing parenthesis reads back as its value. */
  lemma {:induction false} LexField(f: Field, rest: string)
    requires WellFormed(f)
    requires rest != [] && (rest[0] == ',' || rest[0] == ')')
    ensures LexValue(RenderField(f) + rest) == Some((Decode(f), |RenderField(f)|))
  {
    match f
    case Quoted(b) => LexQuoted(b, rest);
    case Bare(tok) => LexBare(tok, rest);
  }

  lemma {:induction false} LexQuoted(b: string, rest: string)
    requires Clean(b)
    requires rest != [] && (rest[0] == ',' || rest[0] == ')')
    ensures LexValue("\"" + b + "\"" + rest) == Some((Text(Unescape(b)), |b| + 2))
  {
    var t := "\"" + b + "\"" + rest;
    assert t[0] == '"';
    assert t[1..] == b + "\"" + rest;
    ReadClean(b, rest);
  }

  lemma {:induction false} LexBare(tok: string, rest: string)
    requires tok != [] && tok[0] != '"' && ',' !in tok && ')' !in tok
    requires rest != [] && (rest[0] == ',' || rest[0] == ')')
    ensures LexValue(tok + rest) == Some((Token(tok), |tok|))
  {
    var t := tok + rest;
    assert t[0] == tok[0];
    TokenLengthOf(tok, rest);
    assert t[..|tok|] == tok;
  }

  /** A value, ", " and further values read back as the longer list. */
  lemma {:induction false} LexValuesCons(t0: string, v: SqlValue, tail: string, vs: seq<SqlValue>, m: nat)
    requires LexValue(t0 + (", " + tail)) == Some((v, |t0|))
    requires LexValues(tail) == Some((vs, m))
    ensures LexValues(t0 + (", " + tail)) == Some(([v] + vs, |t0| + 2 + m))
  {
    CommaSpaceAt(t0, tail);
    LexValuesStep(t0 + (", " + tail), v, |t0|, vs, m);
  }

  lemma {:induction false} CommaSpaceAt(t0: string, tail: string)
    ensures var t := t0 + (", " + tail);
            |t0| + 1 < |t| && t[|t0|] == ',' && t[|t0| + 1] == ' ' && t[|t0| + 2..] == tail
  {
    var t := t0 + (", " + tail);
    assert t[|t0| + 2..] == tail;
  }

  /** One step of LexValues past a ", " separator. */
  lemma {:induction false} LexValuesStep(t: string, v: SqlValue, n: nat, vs: seq<SqlValue>, m: nat)
    requires LexValue(t) == Some((v, n))
    requires n + 1 < |t| && t[n] == ',' && t[n + 1] == ' '
    requires LexValues(t[n + 2..]) == Some((vs, m))
    ensures LexValues(t) == Some(([v] + vs, n + 2 + m))
  {
  }

  lemma {:induction false} DecodeAllCons(fs: seq<Field>)
    requires fs != []
    requires forall i :: 0 <= i < |fs| ==> WellFormed(fs[i])
    ensures DecodeAll(fs) == [Decode(fs[0])] + DecodeAll(fs[1..])
  {
    var l, r := DecodeAll(fs), [Decode(fs[0])] + DecodeAll(fs[1..]);
    assert |l| == |r|;
    forall i | 0 <= i < |l|
      ensures l[i] == r[i]
    {
      if i > 0 {
        assert fs[1..][i - 1] == fs[i];
      }
    }
  }

  /** How the text of several fields splits at the first separator. */
  lemma {:induction false} RenderFieldsSplit(fs: seq<Field>, rest: string)
    requires |fs| > 1
    ensures RenderFields(fs) + ")" + rest == RenderField(fs[0]) + (", " + (RenderFields(fs[1..]) + ")" + rest))
    ensures |RenderFields(fs)| == |RenderField(fs[0])| + 2 + |RenderFields(fs[1..])|
  {
  }

  lemma {:induction false} LexFieldsStep(fs: seq<Field>, rest: string)
    requires |fs| > 1
    requires forall i :: 0 <= i < |fs| ==> WellFormed(fs[i])
    requires LexValues(RenderFields(fs[1..]) + ")" + rest)
          == Some((DecodeAll(fs[1..]), |RenderFields(fs[1..])| + 1))
    ensures LexValues(RenderFields(fs) + ")" + rest) == Some((DecodeAll(fs), |RenderFields(fs)| + 1))
  {
    var tail := RenderFields(fs[1..]) + ")" + rest;
    var head := RenderField(fs[0]);
    RenderFieldsSplit(fs, rest);
    LexField(fs[0], ", " + tail);
    LexValuesCons(head, Decode(fs[0]), tail, DecodeAll(fs[1..]), |RenderFields(fs[1..])| + 1);
    DecodeAllCons(fs);
    var vs := [Decode(fs[0])] + DecodeAll(fs[1..]);
    assert LexValues(head + (", " + tail)) == Some((vs, |RenderFields(fs)| + 1));
  }

  /** Rendered fields and the closing parenthesis read back as the decoded fields. */
  lemma {:induction false} LexFields(fs: seq<Field>, rest: string)
    requires fs != []
    requires forall i :: 0 <= i < |fs| ==> WellFormed(fs[i])
    ensures LexValues(RenderFields(fs) + ")" + rest) == Some((DecodeAll(fs), |RenderFields(fs)| + 1))
    decreases |fs|
  {
    if |fs| == 1 {
      var t := RenderFields(fs) + ")" + rest;
      var f := fs[0];
      assert t == RenderField(f) + (")" + rest);
      LexField(f, ")" + rest);
      assert t[|RenderField(f)|] == ')';
      assert DecodeAll(fs) == [Decode(f)];
    } else {
      LexFields(fs[1..], rest);
      LexFieldsStep(fs, rest);
    }
  }

  lemma {:induction false} LexTupleOpen(body: string)
    ensures LexTuple("(" + body) == (match LexValues(body)
                                     case None => None
                                     case Some((vs, n)) => Some((vs, n + 1)))
  {
    assert ("(" + body)[1..] == body;
  }

  /** A rendered tuple reads back as its decoded fields. */
  lemma {:induction false} LexTupleOf(fs: seq<Field>, rest: string)
    requires fs != []
    requires forall i :: 0 <= i < |fs| ==> WellFormed(fs[i])
    ensures LexTuple("(" + RenderFields(fs) + ")" + rest) == Some((DecodeAll(fs), |RenderFields(fs)| + 2))
  {
    var body := RenderFields(fs) + ")" + rest;
    assert "(" + RenderFields(fs) + ")" + rest == "(" + body;
    LexFields(fs, rest);
    LexTupleOpen(body);
  }

  // ---------------------------------------------------------------------------
  // Round trip of an eharticles row

  /** A hash column that needs no escaping: the source embeds EHash without _ggg. */
  predicate PlainHash(a: HitomiColumnModel)
  {
    a.eHash.Some? ==> '\\' !in a.eHash.value && '"' !in a.eHash.value
  }

  /** What MySQL stores for a _ggg-escaped column: "" for null, else the text with full-width forms folded. */
  function StoredText(s: Option<string>): string
  {
    if s.Some? then Normalize(s.value) else ""
  }

  /** The value MySQL reads from column i of the tuple of a row. */
  function ArticleValue(a: HitomiColumnModel, i: nat): SqlValue
    requires i < 15
  {
    match i
    case 0 => Text(StoredText(a.title))
    case 1 => Token(IntText(a.id))
    case 2 => Text(OrEmpty(a.eHash))
    case 3 => Text(StoredText(a.itemType))
    case 4 => Text(StoredText(a.artists))
    case 5 => Text(StoredText(a.characters))
    case 6 => Text(StoredText(a.groups))
    case 7 => Text(StoredText(a.language))
    case 8 => Text(StoredText(a.series))
    case 9 => Text(StoredText(a.tags))
    case 10 => Text(StoredText(a.uploader))
    case 11 => Text(PublishedText(a.published))
    case 12 => Token(IntText(a.files))
    case 13 => Text(StoredText(a.classification))
    case 14 => Token(BoolText(a.existOnHitomi))
  }

  function ArticleValues(a: HitomiColumnModel): seq<SqlValue>
  {
    seq(15, i requires 0 <= i < 15 => ArticleValue(a, i))
  }

  lemma {:induction false} GggField(s: Option<string>)
    ensures WellFormed(Quoted(Ggg(s))) && Decode(Quoted(Ggg(s))) == Text(StoredText(s))
  {
    if s.Some? {
      GggIsCharwise(s.value);
      EscapeRoundTrip(s.value);
    }
  }

  lemma {:induction false} IntField(n: int)
    ensures WellFormed(Bare(IntText(n)))
  {
    var t := IntText(n);
    var d := Digits(if n < 0 then -n else n);
    assert forall i :: 0 <= i < |t| ==> IsDigit(t[i]) || t[i] == '-' by {
      if n < 0 {
        assert t == "-" + d;
      }
    }
  }

  lemma {:induction false} PublishedField(p: Option<DateTime>)
    ensures WellFormed(Quoted(PublishedText(p))) && Decode(Quoted(PublishedText(p))) == Text(PublishedText(p))
  {
    if p.Some? {
      var d := p.value;
      DigitsArePlain(ZeroPad(d.year, 4));
      DigitsArePlain(ZeroPad(d.month, 2));
      DigitsArePlain(ZeroPad(d.day, 2));
      DigitsArePlain(ZeroPad(d.hour, 2));
      DigitsArePlain(ZeroPad(d.minute, 2));
      DigitsArePlain(ZeroPad(d.second, 2));
    }
    PlainIsClean(PublishedText(p));
  }

  lemma {:induction false} DigitsArePlain(s: string)
    requires forall i :: 0 <= i < |s| ==> IsDigit(s[i])
    ensures '\\' !in s && '"' !in s
  {
  }

  lemma {:induction false} ArticleFieldAt(a: HitomiColumnModel, i: nat)
    requires PlainHash(a) && i < 15
    ensures WellFormed(ArticleField(a, i)) && Decode(ArticleField(a, i)) == ArticleValue(a, i)
  {
    match i
    case 0 => GggField(a.title);
    case 1 => IntField(a.id);
    case 2 => PlainIsClean(OrEmpty(a.eHash));
    case 3 => GggField(a.itemType);
    case 4 => GggField(a.artists);
    case 5 => GggField(a.characters);
    case 6 => GggField(a.groups);
    case 7 => GggField(a.language);
    case 8 => GggField(a.series);
    case 9 => GggField(a.tags);
    case 10 => GggField(a.uploader);
    case 11 => PublishedField(a.published);
    case 12 => IntField(a.files);
    case 13 => GggField(a.classification);
    case 14 =>
  }

  lemma {:induction false} ArticleFieldsDecode(a: HitomiColumnModel)
    requires PlainHash(a)
    ensures forall i :: 0 <= i < |ArticleFields(a)| ==> WellFormed(ArticleFields(a)[i])
    ensures DecodeAll(ArticleFields(a)) == ArticleValues(a)
  {
    var fs := ArticleFields(a);
    forall i | 0 <= i < |fs|
      ensures WellFormed(fs[i]) && Decode(fs[i]) == ArticleValues(a)[i]
    {
      ArticleFieldAt(a, i);
    }
  }

  /**
   * The tuple of a row reads back as its fifteen column values: every escaped
   * column ends at its own closing quote and holds the row's text (full-width
   * backslash and quote folded to ASCII).
   */
  lemma {:induction false} ArticleTupleRoundTrip(a: HitomiColumnModel, rest: string)
    requires PlainHash(a)
    ensures LexTuple(ArticleTuple(a) + rest) == Some((ArticleValues(a), |ArticleTuple(a)|))
  {
    ArticleFieldsDecode(a);
    LexTupleOf(ArticleFields(a), rest);
  }

  // ---------------------------------------------------------------------------
  // Round trip of a whole VALUES list

  /** The tuple text t reads back as vs, whether it ends the text or a ',' follows it. */
  ghost predicate TupleReads(t: string, vs: seq<SqlValue>)
  {
    forall rest :: (rest == [] || rest[0] == ',') ==> LexTuple(t + rest) == Some((vs, |t|))
  }

  ghost predicate TuplesRead(tuples: seq<string>, values: seq<seq<SqlValue>>)
  {
    |tuples| == |values| && forall i :: 0 <= i < |tuples| ==> TupleReads(tuples[i], values[i])
  }

  /** A tuple, a ',' and a VALUES list read back as the longer list. */
  lemma {:induction false} LexTuplesCons(t0: string, vs: seq<SqlValue>, tail: string, vss: seq<seq<SqlValue>>)
    requires LexTuple(t0 + ("," + tail)) == Some((vs, |t0|))
    requires LexTuples(tail) == Some(vss)
    ensures LexTuples(t0 + ("," + tail)) == Some([vs] + vss)
  {
    var t := t0 + ("," + tail);
    assert |t0| < |t| && t[|t0|] == ',';
    assert t[|t0| + 1..] == tail;
    assert LexTuple(t).value.1 == |t0|;
  }

  lemma {:induction false} TupleReadsComma(t: string, vs: seq<SqlValue>, tail: string)
    requires TupleReads(t, vs)
    ensures LexTuple(t + ("," + tail)) == Some((vs, |t|))
  {
    assert ("," + tail)[0] == ',';
  }

  /** A single tuple read back as a whole VALUES list. */
  lemma {:induction false} LexJoinedOne(t: string, vs: seq<SqlValue>)
    requires TupleReads(t, vs)
    ensures LexTuples(t) == Some([vs])
  {
    assert LexTuple(t + []) == Some((vs, |t|));
    assert t + [] == t;
  }

  /** The first tuple, a ',' and a VALUES list read back as the longer list. */
  lemma {:induction false} LexJoinedStep(tuples: seq<string>, values: seq<seq<SqlValue>>)
    requires |tuples| > 1 && |values| == |tuples|
    requires TupleReads(tuples[0], values[0])
    requires LexTuples(Join(tuples[1..], ',')) == Some(values[1..])
    ensures LexTuples(Join(tuples, ',')) == Some(values)
  {
    var tail := Join(tuples[1..], ',');
    JoinSplit(tuples);
    TupleReadsComma(tuples[0], values[0], tail);
    LexTuplesCons(tuples[0], values[0], tail, values[1..]);
    assert [values[0]] + values[1..] == values;
  }

  lemma {:induction false} JoinSplit(tuples: seq<string>)
    requires |tuples| > 1
    ensures var t, n := Join(tuples, ','), |tuples[0]|;
            && t == tuples[0] + ("," + Join(tuples[1..], ','))
            && n < |t| && t[n] == ','
            && t[n + 1..] == Join(tuples[1..], ',')
  {
    assert Join(tuples, ',') == tuples[0] + ("," + Join(tuples[1..], ','));
  }

  lemma {:induction false} TuplesReadTail(tuples: seq<string>, values: seq<seq<SqlValue>>)
    requires tuples != [] && TuplesRead(tuples, values)
    ensures TupleReads(tuples[0], values[0]) && TuplesRead(tuples[1..], values[1..])
  {
    forall i | 0 <= i < |tuples| - 1
      ensures TupleReads(tuples[1..][i], values[1..][i])
    {
      assert tuples[1..][i] == tuples[i + 1];
      assert TupleReads(tuples[i + 1], values[i + 1]);
    }
  }

  /** Tuples joined by ',' read back as the list of their values. */
  lemma {:induction false} LexJoined(tuples: seq<string>, values: seq<seq<SqlValue>>)
    requires tuples != []
    requires TuplesRead(tuples, values)
    ensures LexTuples(Join(tuples, ',')) == Some(values)
    decreases |tuples|
  {
    TuplesReadTail(tuples, values);
    if |tuples| == 1 {
      LexJoinedOne(tuples[0], values[0]);
      assert values == [values[0]];
    } else {
      LexJoined(tuples[1..], values[1..]);
      LexJoinedStep(tuples, values);
    }
  }

  /**
   * The VALUES list of a batch's INSERT statement reads back as exactly the
   * batch's rows, one tuple per row, in order.
   */
  function ArticleValuesList(batch: seq<HitomiColumnModel>): seq<seq<SqlValue>>
  {
    seq(|batch|, i requires 0 <= i < |batch| => ArticleValues(batch[i]))
  }

  lemma {:induction false} ArticleTuplesRead(batch: seq<HitomiColumnModel>)
    requires forall i :: 0 <= i < |batch| ==> PlainHash(batch[i])
    ensures TuplesRead(ArticleTuples(batch), ArticleValuesList(batch))
  {
    var tuples, values := ArticleTuples(batch), ArticleValuesList(batch);
    forall i | 0 <= i < |batch|
      ensures TupleReads(tuples[i], values[i])
    {
      forall rest | rest == [] || rest[0] == ','
        ensures LexTuple(tuples[i] + rest) == Some((values[i], |tuples[i]|))
      {
        ArticleTupleRoundTrip(batch[i], rest);
      }
    }
  }

  lemma {:induction false} InsertArticlesRoundTrip(batch: seq<HitomiColumnModel>)
    requires batch != []
    requires forall i :: 0 <= i < |batch| ==> PlainHash(batch[i])
    ensures InsertArticles(batch)[..|ArticlesInsertHead|] == ArticlesInsertHead
    ensures LexTuples(InsertArticles(batch)[|ArticlesInsertHead|..]) == Some(ArticleValuesList(batch))
  {
    ArticleTuplesRead(batch);
    LexJoined(ArticleTuples(batch), ArticleValuesList(batch));
    assert InsertArticles(batch)[|ArticlesInsertHead|..] == Join(ArticleTuples(batch), ',');
  }

  /** The (Id, Pages) tuple reads back as the two numbers. */
  lemma {:induction false} PagesTupleRoundTrip(a: HitomiColumnModel, rest: string)
    ensures LexTuple(PagesTuple(a) + rest)
         == Some(([Token(IntText(a.id)), Token(IntText(a.files))], |PagesTuple(a)|))
  {
    var fs := [Bare(IntText(a.id)), Bare(IntText(a.files))];
    IntField(a.id);
    IntField(a.files);
    LexTupleOf(fs, rest);
    DecodeAllCons(fs);
    assert DecodeAll(fs[1..]) == [Decode(fs[1])];
    assert PagesTuple(a) + rest == "(" + RenderFields(fs) + ")" + rest;
    assert |PagesTuple(a)| == |RenderFields(fs)| + 2;
    assert DecodeAll(fs) == [Token(IntText(a.id)), Token(IntText(a.files))];
  }

  /** The values the (Id, Pages) tuples of a table read back as. */
  function PagesValuesList(items: seq<HitomiColumnModel>): seq<seq<SqlValue>>
  {
    seq(|items|, i requires 0 <= i < |items| => [Token(IntText(items[i].id)), Token(IntText(items[i].files))])
  }

  /**
   * The article_pages statement reads back as exactly one (Id, Pages) pair
   * per table row, in order.
   */
  lemma {:induction false} InsertArticlePagesRoundTrip(items: seq<HitomiColumnModel>)
    requires items != []
    ensures InsertArticlePages(items)[..|PagesInsertHead|] == PagesInsertHead
    ensures LexTuples(InsertArticlePages(items)[|PagesInsertHead|..]) == Some(PagesValuesList(items))
  {
    var tuples, values := PagesTuples(items), PagesValuesList(items);
    forall i | 0 <= i < |items|
      ensures TupleReads(tuples[i], values[i])
    {
      forall rest | rest == [] || rest[0] == ','
        ensures LexTuple(tuples[i] + rest) == Some((values[i], |tuples[i]|))
      {
        PagesTupleRoundTrip(items[i], rest);
      }
    }
    LexJoined(tuples, values);
    assert InsertArticlePages(items)[|PagesInsertHead|..] == Join(tuples, ',');
  }
}
