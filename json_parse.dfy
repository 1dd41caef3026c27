/** The reader for the haversine input (haversine/src/parse.rs): a tokenizer
    over the input's bytes and a recursive-descent parser that builds a JSON
    value tree. It accepts a loose subset of RFC 8259. Strings have no escapes
    (section 7 of RFC 8259), numbers have no exponent (section 6), and commas
    count as whitespace, so they are never checked. Every byte of the input is
    one `char` here; a Rust panic is a `Panic` outcome. */
module JsonParse {
  import opened Results

  /** `JsonToken`. A number keeps its lexeme; the `f64` it converts to is not
      modelled. */
  datatype Token =
    | CurlyStart | CurlyEnd | Colon | SquareStart | SquareEnd
    | String(s: string)
    | Number(lexeme: string)
    | Boolean(b: bool)
    | Null

  /** `JsonValue`: an object keeps its pairs in source order, duplicate keys
      included. */
  datatype Value =
    | Object(pairs: seq<Pair>)
    | Array(elements: seq<Value>)
    | String(s: string)
    | Number(lexeme: string)
    | Boolean(b: bool)
    | Null

  /** One `(key, value)` entry of an object. */
  datatype Pair = Pair(key: string, value: Value)

  // ---------------------------------------------------------------------------
  // Byte classes and scans

  /** `u8::is_ascii_whitespace`: space, tab, line feed, form feed and carriage
      return (a vertical tab is not whitespace). */
  predicate IsWhitespace(c: char)
  {
    c == ' ' || c == '\t' || c == '\n' || c == '\U{000C}' || c == '\r'
  }

  /** What the tokenizer steps over before a token. */
  predicate Skippable(c: char)
  {
    IsWhitespace(c) || c == ','
  }

  predicate IsDigit(c: char)
  {
    '0' <= c <= '9'
  }

  /** `iter().take_while(keep).count()`: the length of the longest prefix of
      `s` whose bytes all satisfy `keep`. */
  function CountWhile(s: string, keep: char -> bool): (n: nat)
    ensures n <= |s|
    ensures forall i :: 0 <= i < n ==> keep(s[i])
    ensures n == |s| || !keep(s[n])
  {
    if |s| > 0 && keep(s[0]) then 1 + CountWhile(s[1..], keep) else 0
  }

  /** `iter().position(|x| *x == c)`: the index of the first `c` in `s`. */
  function Position(s: string, c: char): (r: Option<nat>)
    ensures r.Some? ==> r.value < |s| && s[r.value] == c && forall i :: 0 <= i < r.value ==> s[i] != c
    ensures r.None? <==> c !in s
  {
    if |s| == 0 then None
    else if s[0] == c then Some(0)
    else match Position(s[1..], c)
      case None => None
      case Some(k) => Some(k + 1)
  }

  // ---------------------------------------------------------------------------
  // Tokens and their text

  /** The text a token stands for, as it appears in the input. */
  function Render(t: Token): string
  {
    match t
    case CurlyStart => "{"
    case CurlyEnd => "}"
    case Colon => ":"
    case SquareStart => "["
    case SquareEnd => "]"
    case String(s) => "\"" + s + "\""
    case Number(l) => l
    case Boolean(b) => if b then "true" else "false"
    case Null => "null"
  }

  /** A number as the tokenizer cuts it and `str::parse::<f64>` accepts it:
      a digit or a minus sign first, then digits with at most one decimal
      point among them, and at least one digit somewhere. */
  predicate NumberLexeme(l: string)
  {
    && |l| > 0
    && (IsDigit(l[0]) || l[0] == '-')
    && ParsesAsFloat(l)
    && (forall i :: 0 < i < |l| ==> IsDigit(l[i]) || l[i] == '.')
    && (forall i, j :: 0 < i < j < |l| && l[i] == '.' ==> l[j] != '.')
  }

  /** Every lexeme the tokenizer can cut (sign, digits, point, digits) is
      accepted by `str::parse::<f64>` exactly when it holds a digit: "-",
      "-." are refused, "1.", "-.5" are read. */
  predicate ParsesAsFloat(l: string)
  {
    exists i :: 0 <= i < |l| && IsDigit(l[i])
  }

  /** The tokens the tokenizer can return: a string without a quote inside,
      a well-formed number. */
  predicate ValidToken(t: Token)
  {
    match t
    case String(s) => '"' !in s
    case Number(l) => NumberLexeme(l)
    case _ => true
  }

  /** `n` is where token `t` ends in `data`: after the skipped bytes, the
      token's own text, and nothing else. */
  predicate Consumes(data: string, t: Token, n: nat)
  {
    var p := CountWhile(data, Skippable);
    p + |Render(t)| == n <= |data| && data[p..n] == Render(t)
  }

  /** `JsonToken::parse_token`: the first token of `data` and the position
      just after it. Each whitespace byte or comma in front moves the token
      one position on; indexing past the end, as on an empty input, panics. */
  function Lex(data: string): (r: Result<(Token, nat)>)
    ensures r.Ok? ==> 0 < r.value.1 <= |data|
  {
    if |data| == 0 then Panic("index out of bounds: the len is the index")
    else if Skippable(data[0]) then Shifted(Lex(data[1..]), 1)
    else TokenAt(data)
  }

  /** What `Lex` returns is a valid token whose text, after the skipped
      bytes, is exactly what it consumes; an input of nothing but
      whitespace and commas panics. */
  lemma {:induction false} LexConsumes(data: string)
    ensures Lex(data).Ok? ==> ValidToken(Lex(data).value.0) && Consumes(data, Lex(data).value.0, Lex(data).value.1)
    ensures (forall i :: 0 <= i < |data| ==> Skippable(data[i])) ==> Lex(data).Panic?
  {
    if |data| > 0 {
      if Skippable(data[0]) {
        LexConsumes(data[1..]);
        if Lex(data[1..]).Ok? {
          ConsumesSkip(data, Lex(data[1..]).value.0, Lex(data[1..]).value.1);
        }
        if forall i :: 0 <= i < |data| ==> Skippable(data[i]) {
          assert forall i :: 0 <= i < |data[1..]| ==> Skippable(data[1..][i]);
        }
      } else if TokenAt(data).Ok? {
        ConsumesFront(data, TokenAt(data).value.0, TokenAt(data).value.1);
      }
    }
  }

  lemma ConsumesSkip(data: string, t: Token, n: nat)
    requires |data| > 0 && Skippable(data[0]) && Consumes(data[1..], t, n)
    ensures Consumes(data, t, n + 1)
  {
    var p := CountWhile(data[1..], Skippable);
    assert CountWhile(data, Skippable) == p + 1;
    assert data[1..][p..n] == data[p + 1..n + 1];
  }

  lemma ConsumesFront(data: string, t: Token, n: nat)
    requires |data| > 0 && !Skippable(data[0])
    requires |Render(t)| == n <= |data| && data[..n] == Render(t)
    ensures Consumes(data, t, n)
  {
    assert CountWhile(data, Skippable) == 0;
    assert data[0..n] == data[..n];
  }

  /** The token at the front of `s`, once the whitespace and commas are
      skipped, and its length. */
  function TokenAt(s: string): (r: Result<(Token, nat)>)
    ensures Reads(s, r)
    ensures |s| == 0 ==> r.Panic?
  {
    if |s| == 0 then Panic("index out of bounds: the len is the index")
    else
      var c := s[0];
      if c == '{' then Single(s, CurlyStart)
      else if c == '}' then Single(s, CurlyEnd)
      else if c == '[' then Single(s, SquareStart)
      else if c == ']' then Single(s, SquareEnd)
      else if c == ':' then Single(s, Colon)
      else if c == '"' then LexString(s)
      else if IsDigit(c) || c == '-' then LexNumber(s)
      else if c == 't' then Keyword(s, Token.Boolean(true), "Expected JSON token starting with 't' to be 'true'")
      else if c == 'f' then Keyword(s, Token.Boolean(false), "Expected JSON token starting with 'f' to be 'false'")
      else if c == 'n' then Keyword(s, Token.Null, "Expected JSON token starting with 'n' to be 'null'")
      else Panic("Unexpected JSON token")
  }

  /** What a branch of the tokenizer returns, when it returns a token: a
      valid token whose non-empty text is the front of `s`, and its length. */
  predicate Reads(s: string, r: Result<(Token, nat)>)
  {
    r.Ok? ==> && ValidToken(r.value.0) && 0 < |Render(r.value.0)| == r.value.1 <= |s|
              && s[..r.value.1] == Render(r.value.0)
  }

  /** A one-byte token: a brace, a bracket or the colon. */
  function Single(s: string, t: Token): (r: Result<(Token, nat)>)
    requires |s| > 0 && |Render(t)| == 1 && s[0] == Render(t)[0] && ValidToken(t)
    ensures r == Ok((t, 1)) && Reads(s, r)
  {
    assert s[..1] == [s[0]];
    Ok((t, 1))
  }

  /** A string: the bytes up to the next quote, with no escapes; without a
      closing quote it panics. */
  function LexString(s: string): (r: Result<(Token, nat)>)
    requires |s| > 0 && s[0] == '"'
    ensures r.Ok? ==> r.value.0.String? && Reads(s, r)
    ensures r.Panic? <==> '"' !in s[1..]
  {
    match Position(s[1..], '"')
    case None => Panic("Expected closing quote for JSON string")
    case Some(size) =>
      var body := s[1..1 + size];
      assert forall i :: 0 <= i < size ==> body[i] == s[1..][i];
      var n: nat := 2 + size;
      assert s[..n] == "\"" + body + "\"";
      Ok((Token.String(body), n))
  }

  /** `true`, `false` or `null`, compared byte for byte; a slice past the end
      of the input panics too. */
  function Keyword(s: string, t: Token, msg: string): (r: Result<(Token, nat)>)
    requires t.Boolean? || t.Null?
    ensures r.Ok? ==> r.value == (t, |Render(t)|) && Reads(s, r)
  {
    var word := Render(t);
    if |word| > |s| then Panic("range end index out of range for slice")
    else if s[..|word|] == word then Ok((t, |word|))
    else Panic(msg)
  }

  /** The number branch: an optional minus sign, the digits, and, when a
      decimal point follows, the point and the digits after it. */
  function LexNumber(s: string): (r: Result<(Token, nat)>)
    requires |s| > 0 && (IsDigit(s[0]) || s[0] == '-')
    ensures r.Ok? ==> r.value.0.Number? && Reads(s, r)
  {
    var end := NumberEnd(s);
    var lexeme := s[..end];
    if ParsesAsFloat(lexeme) then
      NumberEndShape(s);
      Ok((Token.Number(lexeme), end))
    else
      Panic("Couldn't parse number as f64")
  }

  /** Where the number branch stops cutting. */
  function NumberEnd(s: string): (end: nat)
    requires |s| > 0 && (IsDigit(s[0]) || s[0] == '-')
    ensures 0 < end <= |s|
  {
    var start: nat := if s[0] == '-' then 1 else 0;
    var whole: nat := start + CountWhile(s[start..], IsDigit);
    if |s| > whole && s[whole] == '.' then whole + 1 + CountWhile(s[whole + 1..], IsDigit) else whole
  }

  lemma NumberEndShape(s: string)
    requires |s| > 0 && (IsDigit(s[0]) || s[0] == '-')
    requires ParsesAsFloat(s[..NumberEnd(s)])
    ensures NumberLexeme(s[..NumberEnd(s)])
  {
    var start: nat := if s[0] == '-' then 1 else 0;
    var whole: nat := start + CountWhile(s[start..], IsDigit);
    NumberShape(s, start, whole, NumberEnd(s));
  }

  /** The bytes `LexNumber` cuts have the shape of a number. */
  lemma NumberShape(s: string, start: nat, whole: nat, end: nat)
    requires |s| > 0 && (IsDigit(s[0]) || s[0] == '-')
    requires start == if s[0] == '-' then 1 else 0
    requires start <= whole <= |s| && forall i :: start <= i < whole ==> IsDigit(s[i])
    requires end == whole || (whole < end <= |s| && s[whole] == '.' && forall i :: whole < i < end ==> IsDigit(s[i]))
    requires ParsesAsFloat(s[..end])
    ensures NumberLexeme(s[..end])
  {
    var l := s[..end];
    forall i, j | 0 < i < j < |l| && l[i] == '.'
      ensures l[j] != '.'
    {
      assert i == whole;
    }
  }

  // ---------------------------------------------------------------------------
  // The tokenizer as written, with its loop

  /** `JsonToken::parse_token` as the source runs it: step over whitespace and
      commas one byte at a time, then read the token there. Indexing past the
      end, as on an empty input, panics. */
  method ParseToken(data: string) returns (r: Result<(Token, nat)>)
    ensures r == Lex(data)
  {
    var ptr := 0;
    while ptr < |data| && Skippable(data[ptr])
      invariant ptr <= |data|
      invariant forall i :: 0 <= i < ptr ==> Skippable(data[i])
    {
      ptr := ptr + 1;
    }
    if ptr == |data| {
      LexAfterSkips(data, ptr);
      LexStops(data, ptr);
      return Panic("index out of bounds: the len is the index");
    }
    var read := TokenAt(data[ptr..]);
    LexStops(data, ptr);
    LexFound(data, ptr, read);
    if read.Panic? {
      return Panic(read.msg);
    }
    r := Ok((read.value.0, ptr + read.value.1));
  }

  /** `Lex` after skipped bytes: what is read after them, shifted. */
  lemma LexFound(data: string, ptr: nat, read: Result<(Token, nat)>)
    requires ptr <= |data| && forall i :: 0 <= i < ptr ==> Skippable(data[i])
    requires Lex(data[ptr..]) == read
    ensures read.Panic? ==> Lex(data) == Panic(read.msg)
    ensures read.Ok? ==> Lex(data) == Ok((read.value.0, ptr + read.value.1))
  {
    LexAfterSkips(data, ptr);
    ShiftedCases(read, ptr);
  }

  lemma ShiftedCases(read: Result<(Token, nat)>, k: nat)
    ensures read.Panic? ==> Shifted(read, k) == Panic(read.msg)
    ensures read.Ok? ==> Shifted(read, k) == Ok((read.value.0, read.value.1 + k))
  {
  }

  /** Once the skipped bytes in front are known, `Lex` is the token read
      after them, shifted by their number. */
  lemma {:induction false} LexAfterSkips(data: string, ptr: nat)
    requires ptr <= |data| && forall i :: 0 <= i < ptr ==> Skippable(data[i])
    ensures Lex(data) == Shifted(Lex(data[ptr..]), ptr)
  {
    if ptr == 0 {
      assert data[0..] == data;
    } else {
      var tail := data[1..];
      assert forall i :: 0 <= i < ptr - 1 ==> tail[i] == data[i + 1];
      LexAfterSkips(tail, ptr - 1);
      assert tail[ptr - 1..] == data[ptr..];
      LexSkipsFront(data);
      ShiftedTwice(Lex(data[ptr..]), ptr - 1, 1);
    }
  }

  /** A skipped first byte moves the token one position on. */
  lemma LexSkipsFront(data: string)
    requires |data| > 0 && Skippable(data[0])
    ensures Lex(data) == Shifted(Lex(data[1..]), 1)
  {
  }

  /** Where the skipping stops: the end of the input panics, any other byte
      starts the token. */
  lemma LexStops(data: string, ptr: nat)
    requires ptr <= |data| && (ptr == |data| || !Skippable(data[ptr]))
    ensures ptr == |data| ==> Lex(data[ptr..]) == Panic("index out of bounds: the len is the index")
    ensures ptr < |data| ==> Lex(data[ptr..]) == TokenAt(data[ptr..])
  {
  }

  lemma ShiftedTwice(r: Result<(Token, nat)>, j: nat, k: nat)
    ensures Shifted(Shifted(r, j), k) == Shifted(r, j + k)
  {
  }

  /** A token read `k` positions further on. */
  function Shifted(r: Result<(Token, nat)>, k: nat): Result<(Token, nat)>
  {
    match r
    case Panic(m) => Panic(m)
    case Ok(read) => Ok((read.0, read.1 + k))
  }

  // ---------------------------------------------------------------------------
  // Tokenizer lemmas

  /** A whitespace byte or a comma in front of the input only moves the token
      one position on. */
  lemma LexSkips(c: char, data: string)
    requires Skippable(c)
    ensures Lex([c] + data) == Shifted(Lex(data), 1)
  {
    assert ([c] + data)[1..] == data;
  }

  /** Where the text of a number token may end: at the end of the input or
      before a byte that cannot continue it. */
  predicate Delimits(t: Token, rest: string)
  {
    t.Number? && |rest| > 0 ==> !IsDigit(rest[0]) && rest[0] != '.'
  }

  /** Reading a token's own text gives the token back: the tokenizer and
      `Render` are inverse on every token it can return. */
  lemma LexRender(t: Token, rest: string)
    requires ValidToken(t) && Delimits(t, rest)
    ensures Lex(Render(t) + rest) == Ok((t, |Render(t)|))
  {
    var d := Render(t) + rest;
    RenderStarts(t);
    assert d[0] == Render(t)[0];
    if t.String? {
      StringReads(t.s, rest);
    } else if t.Number? {
      NumberReads(t.lexeme, rest);
    } else if t.Boolean? || t.Null? {
      KeywordReads(t, rest);
    } else {
      SingleReads(t, rest);
    }
  }

  lemma SingleReads(t: Token, rest: string)
    requires t.CurlyStart? || t.CurlyEnd? || t.SquareStart? || t.SquareEnd? || t.Colon?
    ensures TokenAt(Render(t) + rest) == Ok((t, 1))
  {
    assert (Render(t) + rest)[0] == Render(t)[0];
  }

  lemma KeywordReads(t: Token, rest: string)
    requires t.Boolean? || t.Null?
    ensures TokenAt(Render(t) + rest) == Ok((t, |Render(t)|))
  {
    var d := Render(t) + rest;
    assert d[0] == Render(t)[0];
    assert d[..|Render(t)|] == Render(t);
  }

  /** The branch the tokenizer takes on a quote (stated on a plain sequence,
      which keeps the solver away from the concatenations of the callers). */
  lemma StringBranch(d: string)
    requires |d| > 0 && d[0] == '"'
    ensures TokenAt(d) == LexString(d)
  {
  }

  /** The branch the tokenizer takes on a digit or a minus sign. */
  lemma NumberBranch(d: string)
    requires |d| > 0 && (IsDigit(d[0]) || d[0] == '-')
    ensures TokenAt(d) == LexNumber(d)
  {
  }

  lemma StringReads(s: string, rest: string)
    requires '"' !in s
    ensures TokenAt(Render(Token.String(s)) + rest) == Ok((Token.String(s), |s| + 2))
  {
    var d := Render(Token.String(s)) + rest;
    StringFront(d, s, rest);
    StringBranch(d);
    StringCut(d, |s|);
  }

  /** The text of a string token followed by anything: a quote, then the
      body up to the first quote after it. */
  lemma StringFront(d: string, s: string, rest: string)
    requires '"' !in s && d == "\"" + s + "\"" + rest
    ensures |d| > 0 && d[0] == '"'
    ensures Position(d[1..], '"') == Some(|s|) && d[1..1 + |s|] == s
  {
    assert d[1..] == s + ['"'] + rest;
    PositionFirst(s, rest, '"');
  }

  /** The string branch once the closing quote is found. */
  lemma StringCut(d: string, size: nat)
    requires |d| > 0 && d[0] == '"' && Position(d[1..], '"') == Some(size)
    ensures LexString(d) == Ok((Token.String(d[1..1 + size]), 2 + size))
  {
  }

  /** The first byte of a token's text, which selects the tokenizer's branch. */
  lemma RenderStarts(t: Token)
    requires ValidToken(t)
    ensures |Render(t)| > 0 && !Skippable(Render(t)[0])
    ensures t.Number? ==> IsDigit(Render(t)[0]) || Render(t)[0] == '-'
  {
  }

  lemma PositionFirst(s: string, rest: string, c: char)
    requires c !in s
    ensures Position(s + [c] + rest, c) == Some(|s|)
  {
    var w := s + [c] + rest;
    assert forall i :: 0 <= i < |s| ==> w[i] == s[i];
    assert w[|s|] == c;
  }

  lemma {:induction false} CountDigits(l: string, rest: string)
    requires forall i :: 0 <= i < |l| ==> IsDigit(l[i])
    requires |rest| > 0 ==> !IsDigit(rest[0])
    ensures CountWhile(l + rest, IsDigit) == |l|
  {
    if |l| > 0 {
      assert (l + rest)[1..] == l[1..] + rest;
      CountDigits(l[1..], rest);
    } else {
      assert l + rest == rest;
    }
  }

  /** The index of the decimal point of `l` at or after `from`, or `|l|`. */
  function DotIndex(l: string, from: nat): (k: nat)
    requires from <= |l|
    ensures from <= k <= |l|
    ensures forall i :: from <= i < k ==> l[i] != '.'
    ensures k < |l| ==> l[k] == '.'
    decreases |l| - from
  {
    if from == |l| || l[from] == '.' then from else DotIndex(l, from + 1)
  }

  lemma NumberReads(l: string, rest: string)
    requires NumberLexeme(l)
    requires |rest| > 0 ==> !IsDigit(rest[0]) && rest[0] != '.'
    ensures TokenAt(l + rest) == Ok((Token.Number(l), |l|))
  {
    var d := l + rest;
    assert d[0] == l[0];
    NumberBranch(d);
    var start := if l[0] == '-' then 1 else 0;
    var k := DotIndex(l, start);
    IntegerPartDigits(l, start);
    IntegerDigits(l, rest, start, k);
    if k < |l| {
      FractionDigits(l, rest, k);
    } else {
      assert |d| > k ==> d[k] == rest[0];
    }
    assert d[..|l|] == l;
    NumberEndIs(d, start, k, |l|);
    NumberCut(d, |l|);
  }

  /** The digits before the decimal point, or before the end, are followed
      by a byte that is no digit. */
  lemma IntegerDigits(l: string, rest: string, start: nat, k: nat)
    requires start <= k <= |l|
    requires forall i :: start <= i < k ==> IsDigit(l[i])
    requires k < |l| ==> l[k] == '.'
    requires |rest| > 0 ==> !IsDigit(rest[0])
    ensures CountWhile((l + rest)[start..], IsDigit) == k - start
  {
    var d := l + rest;
    var intPart := l[start..k];
    assert forall i :: 0 <= i < |intPart| ==> intPart[i] == l[start + i];
    var after := d[k..];
    assert |after| > 0 ==> after[0] == (if k < |l| then '.' else rest[0]);
    assert intPart == d[start..k];
    assert d[start..] == d[start..k] + after;
    CountDigits(intPart, after);
  }

  /** In a number lexeme, everything between the sign and the decimal point
      is a digit. */
  lemma IntegerPartDigits(l: string, start: nat)
    requires NumberLexeme(l) && start == (if l[0] == '-' then 1 else 0)
    ensures forall i :: start <= i < DotIndex(l, start) ==> IsDigit(l[i])
  {
    forall i | start <= i < DotIndex(l, start)
      ensures IsDigit(l[i])
    {
      assert l[i] != '.';
    }
  }

  lemma FractionDigits(l: string, rest: string, k: nat)
    requires NumberLexeme(l)
    requires |rest| > 0 ==> !IsDigit(rest[0]) && rest[0] != '.'
    requires 0 < k < |l| && l[k] == '.'
    ensures (l + rest)[k] == '.'
    ensures CountWhile((l + rest)[k + 1..], IsDigit) == |l| - k - 1
  {
    var d := l + rest;
    var fraction := l[k + 1..];
    assert forall i :: 0 <= i < |fraction| ==> fraction[i] == l[k + 1 + i];
    assert d[k + 1..] == fraction + rest;
    CountDigits(fraction, rest);
  }

  /** Where the number branch stops, once both runs of digits are measured. */
  lemma NumberEndIs(d: string, start: nat, whole: nat, end: nat)
    requires |d| > 0 && (IsDigit(d[0]) || d[0] == '-')
    requires start == (if d[0] == '-' then 1 else 0)
    requires whole == start + CountWhile(d[start..], IsDigit)
    requires end == if |d| > whole && d[whole] == '.' then whole + 1 + CountWhile(d[whole + 1..], IsDigit) else whole
    ensures NumberEnd(d) == end
  {
  }

  /** The number branch once its end is known and the lexeme parses. */
  lemma NumberCut(d: string, end: nat)
    requires |d| > 0 && (IsDigit(d[0]) || d[0] == '-')
    requires NumberEnd(d) == end && ParsesAsFloat(d[..end])
    ensures LexNumber(d) == Ok((Token.Number(d[..end]), end))
  {
  }

  // ---------------------------------------------------------------------------
  // The parser

  /** `rest` is what is left of `data` once a prefix of it is read. */
  predicate IsSuffix(rest: string, data: string)
  {
    |rest| <= |data| && rest == data[|data| - |rest|..]
  }

  lemma DropIsSuffix(data: string, n: nat)
    requires n <= |data|
    ensures IsSuffix(data[n..], data)
  {
  }

  lemma SuffixOfSuffix(a: string, b: string, c: string)
    requires IsSuffix(a, b) && IsSuffix(b, c)
    ensures IsSuffix(a, c)
  {
    assert c[|c| - |b|..][|b| - |a|..] == c[|c| - |a|..];
  }

  /** `JsonValue::parse_rec`: the value at the front of `data` and the bytes
      after it. A closing brace or bracket, or a colon, where a value should
      start panics. */
  function ParseValue(data: string): (r: Result<(Value, string)>)
    decreases |data|, 0
    ensures r.Ok? ==> IsSuffix(r.value.1, data) && |r.value.1| < |data|
  {
    var lexed :- Lex(data);
    var rest := data[lexed.1..];
    DropIsSuffix(data, lexed.1);
    match lexed.0
    case CurlyStart =>
      var members :- ParseMembers(rest, []);
      SuffixOfSuffix(members.1, rest, data);
      Ok((Object(members.0), members.1))
    case SquareStart =>
      var elements :- ParseElements(rest, []);
      SuffixOfSuffix(elements.1, rest, data);
      Ok((Array(elements.0), elements.1))
    case Number(l) => Ok((Value.Number(l), rest))
    case String(s) => Ok((Value.String(s), rest))
    case Boolean(b) => Ok((Value.Boolean(b), rest))
    case Null => Ok((Value.Null, rest))
    case _ => Panic("Unexpected token")
  }

  /** The loop of an object: key, colon and value, appended to `pairs`,
      until the closing brace. A key that is not a string panics. */
  function ParseMembers(data: string, pairs: seq<Pair>): (r: Result<(seq<Pair>, string)>)
    decreases |data|, 2
    ensures r.Ok? ==> IsSuffix(r.value.1, data) && |r.value.1| < |data|
    ensures r.Ok? ==> pairs <= r.value.0
  {
    var lexed :- Lex(data);
    var afterKey := data[lexed.1..];
    DropIsSuffix(data, lexed.1);
    match lexed.0
    case CurlyEnd => Ok((pairs, afterKey))
    case String(key) =>
      var member :- ParseMember(key, afterKey);
      SuffixOfSuffix(member.1, afterKey, data);
      var r := ParseMembers(member.1, pairs + [member.0]);
      if r.Ok? then SuffixOfSuffix(r.value.1, member.1, data); r else r
    case _ => Panic("Found non-string object key!")
  }

  /** One member once its key is read: the colon, then the value. A missing
      colon panics. */
  function ParseMember(key: string, data: string): (r: Result<(Pair, string)>)
    decreases |data|, 1
    ensures r.Ok? ==> IsSuffix(r.value.1, data) && |r.value.1| < |data| && r.value.0.key == key
  {
    var colon :- Lex(data);
    if colon.0 != Colon then Panic("Expected colon between kv pair")
    else
      DropIsSuffix(data, colon.1);
      var parsed :- ParseValue(data[colon.1..]);
      SuffixOfSuffix(parsed.1, data[colon.1..], data);
      Ok((Pair(key, parsed.0), parsed.1))
  }

  /** The loop of an array: values appended to `elements` until the closing
      bracket. */
  function ParseElements(data: string, elements: seq<Value>): (r: Result<(seq<Value>, string)>)
    decreases |data|, 2
    ensures r.Ok? ==> IsSuffix(r.value.1, data) && |r.value.1| < |data|
    ensures r.Ok? ==> elements <= r.value.0
  {
    var lexed :- Lex(data);
    if lexed.0 == SquareEnd then DropIsSuffix(data, lexed.1); Ok((elements, data[lexed.1..]))
    else
      var parsed :- ParseValue(data);
      var r := ParseElements(parsed.1, elements + [parsed.0]);
      if r.Ok? then SuffixOfSuffix(r.value.1, parsed.1, data); r else r
  }

  /** `JsonValue::parse`: the first value of the input; whatever follows it
      is ignored. */
  function Parse(data: string): (r: Result<Value>)
  {
    var parsed :- ParseValue(data);
    Ok(parsed.0)
  }

  // ---------------------------------------------------------------------------
  // Serialization, the inverse of the parser

  /** A value the parser can return: strings and keys without a quote
      inside, well-formed number lexemes, all the way down. */
  predicate ValidValue(v: Value)
  {
    match v
    case Object(ps) => forall i :: 0 <= i < |ps| ==> '"' !in ps[i].key && ValidValue(ps[i].value)
    case Array(es) => forall i :: 0 <= i < |es| ==> ValidValue(es[i])
    case String(s) => '"' !in s
    case Number(l) => NumberLexeme(l)
    case _ => true
  }

  /** A scalar value and the token that stands for it. */
  function AtomToken(v: Value): (t: Token)
    requires !v.Object? && !v.Array?
    ensures ValidValue(v) ==> ValidToken(t)
  {
    match v
    case String(s) => Token.String(s)
    case Number(l) => Token.Number(l)
    case Boolean(b) => Token.Boolean(b)
    case Null => Token.Null
  }

  /** Bytes the lexer skips in front of a token. */
  predicate Blank(ws: string)
  {
    forall i :: 0 <= i < |ws| ==> Skippable(ws[i])
  }

  /** Where whitespace goes in the text of an object or an array: before the
      first member or element, between two of them (this one holds the
      separating comma), before the closing bracket, and on either side of
      each colon. `inner` lays out the objects and arrays one level deeper;
      without it they are laid out like this one. */
  datatype Layout = Layout(open: string, between: string, close: string,
                           beforeColon: string, colon: string, inner: Option<Layout>)

  /** The layout one level deeper. */
  function Inner(lay: Layout): Layout
  {
    if lay.inner.Some? then lay.inner.value else lay
  }

  /** No whitespace at all, single commas between members and elements. */
  const Compact := Layout("", ",", "", "", "", None)

  /** A layout the parser reads through, at every depth: nothing but
      whitespace and commas, and something between two values so that two
      numbers do not merge. */
  predicate ValidLayout(lay: Layout)
  {
    && Blank(lay.open) && Blank(lay.between) && |lay.between| > 0 && Blank(lay.close)
    && Blank(lay.beforeColon) && Blank(lay.colon)
    && (lay.inner.Some? ==> ValidLayout(lay.inner.value))
  }

  lemma InnerValid(lay: Layout)
    requires ValidLayout(lay)
    ensures ValidLayout(Inner(lay))
  {
  }

  /** The JSON text of a value, laid out by `lay`. */
  function Serialize(v: Value, lay: Layout): string
  {
    SerializeThen(v, lay, "")
  }

  /** The text of `v` followed by `rest`. */
  function SerializeThen(v: Value, lay: Layout, rest: string): string
  {
    match v
    case Object(ps) => "{" + PairsThen(ps, lay, lay.open, lay.close + ("}" + rest))
    case Array(es) => "[" + ElementsThen(es, lay, lay.open, lay.close + ("]" + rest))
    case _ => Render(AtomToken(v)) + rest
  }

  /** The members of an object followed by `rest`; `sep` goes in front of
      the first member. */
  function PairsThen(ps: seq<Pair>, lay: Layout, sep: string, rest: string): string
  {
    if |ps| == 0 then rest
    else sep + (Render(Token.String(ps[0].key)) + (lay.beforeColon + (":" + (lay.colon + SerializeThen(ps[0].value, Inner(lay), PairsThen(ps[1..], lay, lay.between, rest))))))
  }

  /** The elements of an array followed by `rest`; `sep` goes in front of
      the first element. */
  function ElementsThen(es: seq<Value>, lay: Layout, sep: string, rest: string): string
  {
    if |es| == 0 then rest else sep + SerializeThen(es[0], Inner(lay), ElementsThen(es[1..], lay, lay.between, rest))
  }

  /** `SerializeThen` is the text of the value with `rest` appended. */
  lemma {:induction false} SerializeAppends(v: Value, lay: Layout, k: string, rest: string)
    ensures SerializeThen(v, lay, k + rest) == SerializeThen(v, lay, k) + rest
    decreases v
  {
    match v
    case Object(ps) =>
      var k1 := lay.close + ("}" + k);
      Nest2(lay.close, "}", k, rest);
      PairsAppend(ps, lay, lay.open, k1, rest);
      Nest1("{", PairsThen(ps, lay, lay.open, k1), rest);
    case Array(es) =>
      var k1 := lay.close + ("]" + k);
      Nest2(lay.close, "]", k, rest);
      ElementsAppend(es, lay, lay.open, k1, rest);
      Nest1("[", ElementsThen(es, lay, lay.open, k1), rest);
    case _ =>
  }

  lemma Nest1(a: string, b: string, rest: string)
    ensures a + (b + rest) == (a + b) + rest
  {
  }

  lemma Nest2(a: string, b: string, c: string, rest: string)
    ensures a + (b + (c + rest)) == (a + (b + c)) + rest
  {
  }

  lemma {:induction false} PairsAppend(ps: seq<Pair>, lay: Layout, sep: string, k: string, rest: string)
    ensures PairsThen(ps, lay, sep, k + rest) == PairsThen(ps, lay, sep, k) + rest
    decreases ps
  {
    if |ps| > 0 {
      var tail := PairsThen(ps[1..], lay, lay.between, k);
      var text := SerializeThen(ps[0].value, Inner(lay), tail);
      PairsAppend(ps[1..], lay, lay.between, k, rest);
      SerializeAppends(ps[0].value, Inner(lay), tail, rest);
      Nest6(sep, Render(Token.String(ps[0].key)), lay.beforeColon, ":", lay.colon, text, rest);
    }
  }

  lemma Nest6(a: string, b: string, c: string, d: string, e: string, f: string, rest: string)
    ensures a + (b + (c + (d + (e + (f + rest))))) == a + (b + (c + (d + (e + f)))) + rest
  {
  }

  lemma {:induction false} ElementsAppend(es: seq<Value>, lay: Layout, sep: string, k: string, rest: string)
    ensures ElementsThen(es, lay, sep, k + rest) == ElementsThen(es, lay, sep, k) + rest
    decreases es
  {
    if |es| > 0 {
      ElementsAppend(es[1..], lay, lay.between, k, rest);
      SerializeAppends(es[0], Inner(lay), ElementsThen(es[1..], lay, lay.between, k), rest);
    }
  }

  /** What may follow a value so that a trailing number is not extended:
      the end of the input or a byte other than a digit or a point. */
  predicate Closes(rest: string)
  {
    |rest| > 0 ==> !IsDigit(rest[0]) && rest[0] != '.'
  }

  /** `parse` returns exactly the value whose text starts the input, whatever
      whitespace each depth uses, and ignores whatever comes after it. */
  lemma ParseRoundTrip(v: Value, lay: Layout, rest: string)
    requires ValidValue(v) && ValidLayout(lay) && Closes(rest)
    ensures Parse(Serialize(v, lay) + rest) == Ok(v)
  {
    SerializeAppends(v, lay, "", rest);
    assert "" + rest == rest;
    ValueRoundTrip(v, lay, rest);
  }

  /** Parsing the text of a valid value gives the value back, and leaves the
      bytes after it untouched. */
  lemma {:induction false} ValueRoundTrip(v: Value, lay: Layout, rest: string)
    requires ValidValue(v) && ValidLayout(lay) && Closes(rest)
    ensures ParseValue(SerializeThen(v, lay, rest)) == Ok((v, rest))
    decreases v
  {
    match v
    case Object(ps) =>
      PairsRoundTrip(ps, lay, lay.open, [], rest);
      ObjectStep(PairsThen(ps, lay, lay.open, lay.close + ("}" + rest)), ps, rest);
    case Array(es) =>
      ElementsRoundTrip(es, lay, lay.open, [], rest);
      ArrayStep(ElementsThen(es, lay, lay.open, lay.close + ("]" + rest)), es, rest);
    case _ =>
      AtomStep(v, rest);
  }

  /** The members of an object, read back up to the closing brace. */
  lemma {:induction false} PairsRoundTrip(ps: seq<Pair>, lay: Layout, sep: string, pairs: seq<Pair>, rest: string)
    requires ValidLayout(lay) && Blank(sep)
    requires forall i :: 0 <= i < |ps| ==> '"' !in ps[i].key && ValidValue(ps[i].value)
    ensures ParseMembers(PairsThen(ps, lay, sep, lay.close + ("}" + rest)), pairs) == Ok((pairs + ps, rest))
    decreases ps, |sep|
  {
    var closing := lay.close + ("}" + rest);
    if |ps| == 0 {
      MembersSkipAll(lay.close, "}" + rest, pairs);
      EndMembers(rest, pairs);
      assert pairs + ps == pairs;
    } else if sep != "" {
      PairsRoundTrip(ps, lay, "", pairs, rest);
      SeparatedPairs(ps, lay, sep, closing);
      MembersSkipAll(sep, PairsThen(ps, lay, "", closing), pairs);
    } else {
      var tail := PairsThen(ps[1..], lay, lay.between, closing);
      ClosingStart(lay, "}", rest);
      PairsStart(ps[1..], lay, closing);
      InnerValid(lay);
      ValueRoundTrip(ps[0].value, Inner(lay), tail);
      PairsRoundTrip(ps[1..], lay, lay.between, pairs + [ps[0]], rest);
      FirstPair(ps, lay, pairs, closing, rest);
    }
  }

  /** One member read back, then the rest of the object. */
  lemma FirstPair(ps: seq<Pair>, lay: Layout, pairs: seq<Pair>, closing: string, rest: string)
    requires |ps| > 0 && '"' !in ps[0].key && Blank(lay.beforeColon) && Blank(lay.colon)
    requires var tail := PairsThen(ps[1..], lay, lay.between, closing);
      && ParseValue(SerializeThen(ps[0].value, Inner(lay), tail)) == Ok((ps[0].value, tail))
      && ParseMembers(tail, pairs + [ps[0]]) == Ok((pairs + [ps[0]] + ps[1..], rest))
    ensures ParseMembers(PairsThen(ps, lay, "", closing), pairs) == Ok((pairs + ps, rest))
  {
    var p := ps[0];
    var tail := PairsThen(ps[1..], lay, lay.between, closing);
    var text := SerializeThen(p.value, Inner(lay), tail);
    ValueSkipsAll(lay.colon, text);
    ColonStep(p.key, lay.colon + text, p.value, tail);
    MemberSkipsAll(p.key, lay.beforeColon, ":" + (lay.colon + text));
    KeyStep(p.key, lay.beforeColon + (":" + (lay.colon + text)), pairs, Pair(p.key, p.value), tail);
    AppendFirst(pairs, ps);
    UnseparatedPairs(ps, lay, closing);
  }

  /** The elements of an array, read back up to the closing bracket. */
  lemma {:induction false} ElementsRoundTrip(es: seq<Value>, lay: Layout, sep: string, elements: seq<Value>, rest: string)
    requires ValidLayout(lay) && Blank(sep)
    requires forall i :: 0 <= i < |es| ==> ValidValue(es[i])
    ensures ParseElements(ElementsThen(es, lay, sep, lay.close + ("]" + rest)), elements) == Ok((elements + es, rest))
    decreases es, |sep|
  {
    var closing := lay.close + ("]" + rest);
    if |es| == 0 {
      ElementsSkipAll(lay.close, "]" + rest, elements);
      EndElements(rest, elements);
      assert elements + es == elements;
    } else if sep != "" {
      ElementsRoundTrip(es, lay, "", elements, rest);
      SeparatedElements(es, lay, sep, closing);
      ElementsSkipAll(sep, ElementsThen(es, lay, "", closing), elements);
    } else {
      var tail := ElementsThen(es[1..], lay, lay.between, closing);
      ClosingStart(lay, "]", rest);
      ElementsStart(es[1..], lay, closing);
      InnerValid(lay);
      ValueRoundTrip(es[0], Inner(lay), tail);
      LeadToken(es[0], Inner(lay), tail);
      ElementsRoundTrip(es[1..], lay, lay.between, elements + [es[0]], rest);
      FirstElement(es, lay, elements, closing, rest);
    }
  }

  /** One element read back, then the rest of the array. */
  lemma FirstElement(es: seq<Value>, lay: Layout, elements: seq<Value>, closing: string, rest: string)
    requires |es| > 0
    requires var tail := ElementsThen(es[1..], lay, lay.between, closing);
      && ParseValue(SerializeThen(es[0], Inner(lay), tail)) == Ok((es[0], tail))
      && Lex(SerializeThen(es[0], Inner(lay), tail)).Ok? && Lex(SerializeThen(es[0], Inner(lay), tail)).value.0 != SquareEnd
      && ParseElements(tail, elements + [es[0]]) == Ok((elements + [es[0]] + es[1..], rest))
    ensures ParseElements(ElementsThen(es, lay, "", closing), elements) == Ok((elements + es, rest))
  {
    var tail := ElementsThen(es[1..], lay, lay.between, closing);
    var d := SerializeThen(es[0], Inner(lay), tail);
    UnseparatedElements(es, lay, closing);
    ElementsNext(d, elements);
    AppendFirst(elements, es);
  }

  lemma AppendFirst<T>(xs: seq<T>, ys: seq<T>)
    requires |ys| > 0
    ensures xs + [ys[0]] + ys[1..] == xs + ys
  {
    assert [ys[0]] + ys[1..] == ys;
  }

  /** A separator only goes in front. */
  lemma SeparatedPairs(ps: seq<Pair>, lay: Layout, sep: string, rest: string)
    requires |ps| > 0
    ensures PairsThen(ps, lay, sep, rest) == sep + PairsThen(ps, lay, "", rest)
  {
    var body := Render(Token.String(ps[0].key)) + (lay.beforeColon + (":" + (lay.colon + SerializeThen(ps[0].value, Inner(lay), PairsThen(ps[1..], lay, lay.between, rest)))));
    assert "" + body == body;
  }

  lemma SeparatedElements(es: seq<Value>, lay: Layout, sep: string, rest: string)
    requires |es| > 0
    ensures ElementsThen(es, lay, sep, rest) == sep + ElementsThen(es, lay, "", rest)
  {
    var body := SerializeThen(es[0], Inner(lay), ElementsThen(es[1..], lay, lay.between, rest));
    assert "" + body == body;
  }

  /** Without a separator the text starts right at the first member. */
  lemma UnseparatedPairs(ps: seq<Pair>, lay: Layout, rest: string)
    requires |ps| > 0
    ensures PairsThen(ps, lay, "", rest)
         == Render(Token.String(ps[0].key)) + (lay.beforeColon + (":" + (lay.colon + SerializeThen(ps[0].value, Inner(lay), PairsThen(ps[1..], lay, lay.between, rest)))))
  {
    var body := Render(Token.String(ps[0].key)) + (lay.beforeColon + (":" + (lay.colon + SerializeThen(ps[0].value, Inner(lay), PairsThen(ps[1..], lay, lay.between, rest)))));
    assert "" + body == body;
  }

  lemma UnseparatedElements(es: seq<Value>, lay: Layout, rest: string)
    requires |es| > 0
    ensures ElementsThen(es, lay, "", rest) == SerializeThen(es[0], Inner(lay), ElementsThen(es[1..], lay, lay.between, rest))
  {
    var body := SerializeThen(es[0], Inner(lay), ElementsThen(es[1..], lay, lay.between, rest));
    assert "" + body == body;
  }

  /** The closing whitespace and bracket, then anything, never extend a
      number. */
  lemma ClosingStart(lay: Layout, bracket: string, rest: string)
    requires Blank(lay.close) && (bracket == "}" || bracket == "]")
    ensures Closes(lay.close + (bracket + rest))
  {
    if |lay.close| == 0 {
      assert lay.close + (bracket + rest) == bracket + rest;
    } else {
      assert (lay.close + (bracket + rest))[0] == lay.close[0];
    }
  }

  /** After a member or an element comes whitespace, a comma or the closing
      text. */
  lemma PairsStart(ps: seq<Pair>, lay: Layout, rest: string)
    requires Blank(lay.between) && |lay.between| > 0 && Closes(rest)
    ensures Closes(PairsThen(ps, lay, lay.between, rest))
  {
    if |ps| > 0 {
      assert PairsThen(ps, lay, lay.between, rest)[0] == lay.between[0];
    }
  }

  lemma ElementsStart(es: seq<Value>, lay: Layout, rest: string)
    requires Blank(lay.between) && |lay.between| > 0 && Closes(rest)
    ensures Closes(ElementsThen(es, lay, lay.between, rest))
  {
    if |es| > 0 {
      assert ElementsThen(es, lay, lay.between, rest)[0] == lay.between[0];
    }
  }

  /** The first token of a value's text is never a closing bracket. */
  lemma LeadToken(v: Value, lay: Layout, rest: string)
    requires ValidValue(v) && Closes(rest)
    ensures Lex(SerializeThen(v, lay, rest)).Ok? && Lex(SerializeThen(v, lay, rest)).value.0 != SquareEnd
  {
    match v
    case Object(ps) =>
      LexRender(CurlyStart, PairsThen(ps, lay, lay.open, lay.close + ("}" + rest)));
    case Array(es) =>
      LexRender(SquareStart, ElementsThen(es, lay, lay.open, lay.close + ("]" + rest)));
    case _ =>
      LexRender(AtomToken(v), rest);
  }

  // The parser one step at a time.

  lemma AtomStep(v: Value, rest: string)
    requires !v.Object? && !v.Array? && ValidValue(v) && Closes(rest)
    ensures ParseValue(Render(AtomToken(v)) + rest) == Ok((v, rest))
  {
    var d := Render(AtomToken(v)) + rest;
    LexRender(AtomToken(v), rest);
    assert d[|Render(AtomToken(v))|..] == rest;
    AtomAt(d, v);
  }

  lemma AtomAt(d: string, v: Value)
    requires !v.Object? && !v.Array? && Lex(d).Ok? && Lex(d).value.0 == AtomToken(v)
    ensures ParseValue(d) == Ok((v, d[Lex(d).value.1..]))
  {
  }

  lemma ObjectStep(body: string, ps: seq<Pair>, rest: string)
    requires ParseMembers(body, []) == Ok(([] + ps, rest))
    ensures ParseValue("{" + body) == Ok((Object(ps), rest))
  {
    var d := "{" + body;
    LexRender(CurlyStart, body);
    assert d[1..] == body;
    assert [] + ps == ps;
    ObjectAt(d);
  }

  lemma ObjectAt(d: string)
    requires Lex(d).Ok? && Lex(d).value.0 == CurlyStart
    requires ParseMembers(d[Lex(d).value.1..], []).Ok?
    ensures ParseValue(d) == Ok((Object(ParseMembers(d[Lex(d).value.1..], []).value.0), ParseMembers(d[Lex(d).value.1..], []).value.1))
  {
  }

  lemma ArrayStep(body: string, es: seq<Value>, rest: string)
    requires ParseElements(body, []) == Ok(([] + es, rest))
    ensures ParseValue("[" + body) == Ok((Array(es), rest))
  {
    var d := "[" + body;
    LexRender(SquareStart, body);
    assert d[1..] == body;
    assert [] + es == es;
    ArrayAt(d);
  }

  lemma ArrayAt(d: string)
    requires Lex(d).Ok? && Lex(d).value.0 == SquareStart
    requires ParseElements(d[Lex(d).value.1..], []).Ok?
    ensures ParseValue(d) == Ok((Array(ParseElements(d[Lex(d).value.1..], []).value.0), ParseElements(d[Lex(d).value.1..], []).value.1))
  {
  }

  lemma EndMembers(rest: string, pairs: seq<Pair>)
    ensures ParseMembers("}" + rest, pairs) == Ok((pairs, rest))
  {
    var d := "}" + rest;
    LexRender(CurlyEnd, rest);
    assert d[1..] == rest;
    MembersEnd(d, pairs);
  }

  lemma MembersEnd(d: string, pairs: seq<Pair>)
    requires Lex(d).Ok? && Lex(d).value.0 == CurlyEnd
    ensures ParseMembers(d, pairs) == Ok((pairs, d[Lex(d).value.1..]))
  {
  }

  lemma KeyStep(key: string, afterKey: string, pairs: seq<Pair>, m: Pair, after: string)
    requires '"' !in key && ParseMember(key, afterKey) == Ok((m, after))
    ensures ParseMembers(Render(Token.String(key)) + afterKey, pairs) == ParseMembers(after, pairs + [m])
  {
    var d := Render(Token.String(key)) + afterKey;
    LexRender(Token.String(key), afterKey);
    assert d[|Render(Token.String(key))|..] == afterKey;
    MembersKey(d, pairs);
  }

  lemma MembersKey(d: string, pairs: seq<Pair>)
    requires Lex(d).Ok? && Lex(d).value.0.String?
    requires ParseMember(Lex(d).value.0.s, d[Lex(d).value.1..]).Ok?
    ensures var m := ParseMember(Lex(d).value.0.s, d[Lex(d).value.1..]).value;
            ParseMembers(d, pairs) == ParseMembers(m.1, pairs + [m.0])
  {
  }

  lemma ColonStep(key: string, text: string, v: Value, after: string)
    requires ParseValue(text) == Ok((v, after))
    ensures ParseMember(key, ":" + text) == Ok((Pair(key, v), after))
  {
    var d := ":" + text;
    LexRender(Colon, text);
    assert d[1..] == text;
    MemberAt(key, d);
  }

  lemma MemberAt(key: string, d: string)
    requires Lex(d).Ok? && Lex(d).value.0 == Colon
    requires ParseValue(d[Lex(d).value.1..]).Ok?
    ensures var v := ParseValue(d[Lex(d).value.1..]).value;
            ParseMember(key, d) == Ok((Pair(key, v.0), v.1))
  {
  }

  lemma MembersSkip(c: char, d: string, pairs: seq<Pair>)
    requires Skippable(c)
    ensures ParseMembers([c] + d, pairs) == ParseMembers(d, pairs)
  {
    LexSkips(c, d);
    if Lex(d).Ok? {
      assert ([c] + d)[Lex(d).value.1 + 1..] == d[Lex(d).value.1..];
    }
  }

  lemma MemberSkip(key: string, c: char, d: string)
    requires Skippable(c)
    ensures ParseMember(key, [c] + d) == ParseMember(key, d)
  {
    LexSkips(c, d);
    if Lex(d).Ok? {
      assert ([c] + d)[Lex(d).value.1 + 1..] == d[Lex(d).value.1..];
    }
  }

  /** Whitespace and commas between a key and its colon change nothing. */
  lemma {:induction false} MemberSkipsAll(key: string, ws: string, d: string)
    requires Blank(ws)
    ensures ParseMember(key, ws + d) == ParseMember(key, d)
  {
    if |ws| > 0 {
      assert ws + d == [ws[0]] + (ws[1..] + d);
      MemberSkip(key, ws[0], ws[1..] + d);
      MemberSkipsAll(key, ws[1..], d);
    } else {
      assert ws + d == d;
    }
  }

  lemma EndElements(rest: string, elements: seq<Value>)
    ensures ParseElements("]" + rest, elements) == Ok((elements, rest))
  {
    var d := "]" + rest;
    LexRender(SquareEnd, rest);
    assert d[1..] == rest;
    ElementsEnd(d, elements);
  }

  lemma ElementsEnd(d: string, elements: seq<Value>)
    requires Lex(d).Ok? && Lex(d).value.0 == SquareEnd
    ensures ParseElements(d, elements) == Ok((elements, d[Lex(d).value.1..]))
  {
  }

  lemma ElementsNext(d: string, elements: seq<Value>)
    requires Lex(d).Ok? && Lex(d).value.0 != SquareEnd && ParseValue(d).Ok?
    ensures ParseElements(d, elements) == ParseElements(ParseValue(d).value.1, elements + [ParseValue(d).value.0])
  {
  }

  lemma ElementsSkip(c: char, d: string, elements: seq<Value>)
    requires Skippable(c)
    ensures ParseElements([c] + d, elements) == ParseElements(d, elements)
  {
    LexSkips(c, d);
    ValueSkip(c, d);
    if Lex(d).Ok? {
      assert ([c] + d)[Lex(d).value.1 + 1..] == d[Lex(d).value.1..];
    }
  }

  lemma ValueSkip(c: char, d: string)
    requires Skippable(c)
    ensures ParseValue([c] + d) == ParseValue(d)
  {
    LexSkips(c, d);
    if Lex(d).Ok? {
      assert ([c] + d)[Lex(d).value.1 + 1..] == d[Lex(d).value.1..];
    }
  }

  /** Whitespace and commas in front of a value change nothing: the parser
      never checks where the commas are. */
  lemma {:induction false} ValueSkipsAll(ws: string, d: string)
    requires Blank(ws)
    ensures ParseValue(ws + d) == ParseValue(d)
  {
    if |ws| > 0 {
      assert ws + d == [ws[0]] + (ws[1..] + d);
      ValueSkip(ws[0], ws[1..] + d);
      ValueSkipsAll(ws[1..], d);
    } else {
      assert ws + d == d;
    }
  }

  lemma {:induction false} MembersSkipAll(ws: string, d: string, pairs: seq<Pair>)
    requires Blank(ws)
    ensures ParseMembers(ws + d, pairs) == ParseMembers(d, pairs)
  {
    if |ws| > 0 {
      assert ws + d == [ws[0]] + (ws[1..] + d);
      MembersSkip(ws[0], ws[1..] + d, pairs);
      MembersSkipAll(ws[1..], d, pairs);
    } else {
      assert ws + d == d;
    }
  }

  lemma {:induction false} ElementsSkipAll(ws: string, d: string, elements: seq<Value>)
    requires Blank(ws)
    ensures ParseElements(ws + d, elements) == ParseElements(d, elements)
  {
    if |ws| > 0 {
      assert ws + d == [ws[0]] + (ws[1..] + d);
      ElementsSkip(ws[0], ws[1..] + d, elements);
      ElementsSkipAll(ws[1..], d, elements);
    } else {
      assert ws + d == d;
    }
  }

  // ---------------------------------------------------------------------------
  // The parser as written, with its loops

  /** `JsonValue::parse_rec` as the source runs it. The object and array
      loops, which re-slice the remaining input and push onto a growing
      vector, are `ParseObject` and `ParseArray`. */
  method ParseRec(data: string) returns (r: Result<(Value, string)>)
    decreases |data|, 0
    ensures r == ParseValue(data)
  {
    var lexed :- ParseToken(data);
    var rest := data[lexed.1..];
    match lexed.0 {
      case CurlyStart =>
        var members :- ParseObject(rest);
        r := Ok((Object(members.0), members.1));
      case SquareStart =>
        var elements :- ParseArray(rest);
        r := Ok((Array(elements.0), elements.1));
      case Number(l) =>
        r := Ok((Value.Number(l), rest));
      case String(s) =>
        r := Ok((Value.String(s), rest));
      case Boolean(b) =>
        r := Ok((Value.Boolean(b), rest));
      case Null =>
        r := Ok((Value.Null, rest));
      case _ =>
        r := Panic("Unexpected token");
    }
  }

  /** The object loop of `parse_rec`, after the opening brace. */
  method ParseObject(rest: string) returns (r: Result<(seq<Pair>, string)>)
    decreases |rest|, 2
    ensures r == ParseMembers(rest, [])
  {
    var pairs: seq<Pair> := [];
    var d := rest;
    while true
      invariant IsSuffix(d, rest)
      invariant ParseMembers(d, pairs) == ParseMembers(rest, [])
      decreases |d|
    {
      ghost var before := d;
      var curr :- ParseToken(d);
      d := d[curr.1..];
      if curr.0 == CurlyEnd {
        assert ParseMembers(before, pairs) == Ok((pairs, d));
        break;
      } else if !curr.0.String? {
        return Panic("Found non-string object key!");
      }
      var member :- ParsePair(curr.0.s, d);
      assert ParseMembers(before, pairs) == ParseMembers(member.1, pairs + [member.0]);
      d := member.1;
      pairs := pairs + [member.0];
    }
    r := Ok((pairs, d));
  }

  /** The colon and the value of one object member, after its key. */
  method ParsePair(key: string, data: string) returns (r: Result<(Pair, string)>)
    decreases |data|, 1
    ensures r == ParseMember(key, data)
  {
    var colon :- ParseToken(data);
    if colon.0 != Colon {
      return Panic("Expected colon between kv pair");
    }
    var parsed :- ParseRec(data[colon.1..]);
    r := Ok((Pair(key, parsed.0), parsed.1));
  }

  /** The array loop of `parse_rec`, after the opening bracket: each element
      is parsed from where the peeked token began. */
  method ParseArray(rest: string) returns (r: Result<(seq<Value>, string)>)
    decreases |rest|, 2
    ensures r == ParseElements(rest, [])
  {
    var elements: seq<Value> := [];
    var d := rest;
    while true
      invariant IsSuffix(d, rest)
      invariant ParseElements(d, elements) == ParseElements(rest, [])
      decreases |d|
    {
      var curr :- ParseToken(d);
      if curr.0 == SquareEnd {
        d := d[curr.1..];
        break;
      }
      var parsed :- ParseRec(d);
      d := parsed.1;
      elements := elements + [parsed.0];
    }
    r := Ok((elements, d));
  }
}
