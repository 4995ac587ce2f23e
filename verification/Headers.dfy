/** Resource versions in ETag and If-Match headers: one printer, the strict parser of the
    provider catalog and the lax one of booking intents. Header values are ASCII. */
module ETags {
  import opened Options
  import opened Characters

  datatype Result = Ok(version: nat) | PreconditionRequired | InvalidIfMatch

  predicate IsSpace(c: char) {
    c == ' ' || '\t' <= c <= '\r' || '\U{1c}' <= c <= '\U{1f}'
  }

  predicate IsQuote(c: char) {
    c == '"'
  }

  // ---------------------------------------------------------------- decimal numerals

  /** s.isdigit(), or s is empty */
  predicate Digits(s: string) {
    AllDigits(Codes(s))
  }

  /** int(s) */
  function Value(s: string): nat
    requires Digits(s)
  {
    DecimalValue(Codes(s))
  }

  // ---------------------------------------------------------------- stripping

  function StripLeft(s: string, p: char -> bool): string {
    if s != "" && p(s[0]) then StripLeft(s[1..], p) else s
  }

  function StripRight(s: string, p: char -> bool): string {
    if s != "" && p(s[|s| - 1]) then StripRight(s[..|s| - 1], p) else s
  }

  function Strip(s: string, p: char -> bool): string {
    StripRight(StripLeft(s, p), p)
  }

  /** The characters between the quotes, after an optional weak prefix. */
  function Token(value: string): string {
    var v := Strip(value, IsSpace);
    var v := if "W/" <= v then Strip(v[2..], IsSpace) else v;
    Strip(v, IsQuote)
  }

  /** _version() of the provider catalog: [1-9][0-9]* */
  function StrictVersion(ifMatch: Option<string>): Result {
    if ifMatch.None? then PreconditionRequired else
    var token := Token(ifMatch.value);
    if token != "" && token[0] != '0' && Digits(token) then Ok(Value(token)) else InvalidIfMatch
  }

  /** _version() of booking intents: any digits with a value of at least one. */
  function LaxVersion(ifMatch: Option<string>): Result {
    if ifMatch.None? then PreconditionRequired else
    var token := Token(ifMatch.value);
    if token == "" || !Digits(token) || Value(token) < 1 then InvalidIfMatch else Ok(Value(token))
  }

  function ETag(version: nat): string {
    "\"" + Numeral(version) + "\""
  }

  // ---------------------------------------------------------------- printer and parsers agree

  lemma StripNothing(s: string, p: char -> bool)
    requires s != "" && !p(s[0]) && !p(s[|s| - 1])
    ensures Strip(s, p) == s
  {
  }

  lemma StripQuotes(s: string)
    requires s != "" && Digits(s)
    ensures Strip("\"" + s + "\"", IsQuote) == s
  {
    var quoted := "\"" + s + "\"";
    assert quoted[1..] == s + "\"";
    assert StripLeft(quoted, IsQuote) == s + "\"";
    assert (s + "\"")[..|s|] == s;
    assert StripRight(s, IsQuote) == s;
  }

  lemma TokenOfETag(version: nat)
    ensures Token(ETag(version)) == Numeral(version) && Token("W/" + ETag(version)) == Numeral(version)
  {
    NumeralReadsBack(version);
    var tag := ETag(version);
    assert tag[0] == '"' && tag[|tag| - 1] == '"' && ("W/" + tag)[|tag| + 1] == '"';
    assert ("W/" + tag)[2..] == tag;
    StripNothing(tag, IsSpace);
    StripNothing("W/" + tag, IsSpace);
    StripQuotes(Numeral(version));
  }

  /** Every printed version parses back, in strong and in weak form, under both parsers. */
  lemma VersionRoundTrip(version: nat)
    requires version >= 1
    ensures StrictVersion(Some(ETag(version))) == StrictVersion(Some("W/" + ETag(version))) == Ok(version)
    ensures LaxVersion(Some(ETag(version))) == LaxVersion(Some("W/" + ETag(version))) == Ok(version)
  {
    hide Token, ETag;
    TokenOfETag(version);
    NumeralReadsBack(version);
  }

  // ---------------------------------------------------------------- what the parsers accept

  predicate All(s: string, p: char -> bool) {
    forall i | 0 <= i < |s| :: p(s[i])
  }

  /** Stripping takes something off either end. */
  lemma {:induction false} StripSplits(s: string, p: char -> bool) returns (left: string, right: string)
    ensures s == left + Strip(s, p) + right && All(left, p) && All(right, p)
  {
    left := TakenLeft(s, p);
    right := TakenRight(StripLeft(s, p), p);
  }

  lemma {:induction false} TakenLeft(s: string, p: char -> bool) returns (left: string)
    ensures s == left + StripLeft(s, p) && All(left, p)
  {
    left := "";
    if s != "" && p(s[0]) {
      var rest := TakenLeft(s[1..], p);
      left := [s[0]] + rest;
    }
  }

  lemma {:induction false} TakenRight(s: string, p: char -> bool) returns (right: string)
    ensures s == StripRight(s, p) + right && All(right, p)
  {
    right := "";
    if s != "" && p(s[|s| - 1]) {
      var rest := TakenRight(s[..|s| - 1], p);
      right := rest + [s[|s| - 1]];
    }
  }

  /** And no more than that. */
  lemma StripExact(left: string, s: string, right: string, p: char -> bool)
    requires All(left, p) && All(right, p) && s != "" && !p(s[0]) && !p(s[|s| - 1])
    ensures Strip(left + s + right, p) == s
  {
    StripLeftExact(left, s + right, p);
    StripRightExact(s, right, p);
    assert left + s + right == left + (s + right);
  }

  lemma {:induction false} StripLeftExact(left: string, s: string, p: char -> bool)
    requires All(left, p) && s != "" && !p(s[0])
    ensures StripLeft(left + s, p) == s
  {
    if left == "" {
      assert left + s == s;
    } else {
      assert (left + s)[1..] == left[1..] + s;
      StripLeftExact(left[1..], s, p);
    }
  }

  lemma {:induction false} StripRightExact(s: string, right: string, p: char -> bool)
    requires All(right, p) && s != "" && !p(s[|s| - 1])
    ensures StripRight(s + right, p) == s
  {
    if right == "" {
      assert s + right == s;
    } else {
      assert (s + right)[..|s + right| - 1] == s + right[..|right| - 1];
      StripRightExact(s, right[..|right| - 1], p);
    }
  }

  /** `value` is digits in optional quotes, after an optional W/, with spaces around each of these. */
  ghost predicate IsTag(value: string, left: string, mark: string, open: string, digits: string, close: string,
                        right: string) {
    && value == left + mark + open + digits + close + right
    && All(left, IsSpace) && All(right, IsSpace) && All(open, IsQuote) && All(close, IsQuote)
    && (mark == "" || ("W/" <= mark && All(mark[2..], IsSpace)))
    && digits != "" && Digits(digits)
  }

  lemma DigitEnds(digits: string, open: string, close: string, s: string)
    requires digits != "" && Digits(digits) && All(open, IsQuote) && All(close, IsQuote) && s == open + digits + close
    ensures s != "" && !IsSpace(s[0]) && !IsSpace(s[|s| - 1]) && s[0] != 'W' && Strip(s, IsQuote) == digits
  {
    hide *;
    DigitIsPlain(digits, 0);
    DigitIsPlain(digits, |digits| - 1);
    QuotesArePlain(open);
    QuotesArePlain(close);
    StripExact(open, digits, close, IsQuote);
    assert s[0] == if open == "" then digits[0] else open[0];
    assert s[|s| - 1] == if close == "" then digits[|digits| - 1] else close[|close| - 1];
  }

  lemma DigitIsPlain(digits: string, i: nat)
    requires i < |digits| && Digits(digits)
    ensures !IsSpace(digits[i]) && !IsQuote(digits[i]) && digits[i] != 'W'
  {
    assert IsDigit(Codes(digits)[i]);
  }

  lemma QuotesArePlain(quotes: string)
    requires All(quotes, IsQuote)
    ensures forall i | 0 <= i < |quotes| :: !IsSpace(quotes[i]) && quotes[i] != 'W'
  {
  }

  lemma TagHasToken(value: string, left: string, mark: string, open: string, digits: string, close: string,
                    right: string)
    requires IsTag(value, left, mark, open, digits, close, right)
    ensures Token(value) == digits
  {
    hide Strip, Digits;
    var s := open + digits + close;
    DigitEnds(digits, open, close, s);
    assert value == left + (mark + s) + right;
    StripExact(left, mark + s, right, IsSpace);
    if mark != "" {
      assert (mark + s)[2..] == mark[2..] + s + "";
      StripExact(mark[2..], s, "", IsSpace);
    } else {
      assert mark + s == s;
    }
  }

  lemma TokenHasTag(value: string) returns (left: string, mark: string, open: string, close: string, right: string)
    requires Token(value) != "" && Digits(Token(value))
    ensures IsTag(value, left, mark, open, Token(value), close, right)
  {
    hide Strip, Digits;
    left, right := StripSplits(value, IsSpace);
    var v := Strip(value, IsSpace);
    mark := "";
    var s := v;
    if "W/" <= v {
      var before, after := StripSplits(v[2..], IsSpace);
      s := Strip(v[2..], IsSpace);
      mark := "W/" + before;
      right := after + right;
      assert v == "W/" + v[2..];
    }
    open, close := StripSplits(s, IsQuote);
    assert value == left + mark + s + right;
  }

  /** An If-Match value gives version `n` exactly when it spells `n`, which is at least 1. */
  lemma LaxExactly(value: string, n: nat)
    ensures LaxVersion(Some(value)) == Ok(n) <==>
            n >= 1 && exists left, mark, open, digits, close, right ::
              IsTag(value, left, mark, open, digits, close, right) && Value(digits) == n
  {
    hide Token, Digits;
    if LaxVersion(Some(value)).Ok? {
      var left, mark, open, close, right := TokenHasTag(value);
    }
    forall left, mark, open, digits, close, right | IsTag(value, left, mark, open, digits, close, right)
      ensures Token(value) == digits
    {
      TagHasToken(value, left, mark, open, digits, close, right);
    }
  }

  /** A missing header and a malformed one are told apart. */
  lemma ErrorsDiffer(ifMatch: Option<string>)
    ensures LaxVersion(ifMatch) == PreconditionRequired <==> ifMatch.None?
    ensures StrictVersion(ifMatch) == PreconditionRequired <==> ifMatch.None?
  {
  }

  /** The strict parser accepts what the lax one accepts without a leading zero, and reads the same version. */
  lemma StrictIsLaxWithoutZeros(ifMatch: Option<string>)
    ensures StrictVersion(ifMatch).Ok? <==> LaxVersion(ifMatch).Ok? && Token(ifMatch.value)[0] != '0'
    ensures !LaxVersion(ifMatch).Ok? || StrictVersion(ifMatch).Ok? ==> StrictVersion(ifMatch) == LaxVersion(ifMatch)
  {
    hide Token;
    var token := if ifMatch.Some? then Token(ifMatch.value) else "";
    if token != "" && Digits(token) && token[0] != '0' {
      LeadingDigitCounts(Codes(token));
    }
  }
}

/** The string the middleware adapter signs: checked fields joined by newlines. */
module SigningString {
  import opened Options

  const VERSION := "HMAC-V2"
  const PATH := "/api/v1/integrations/breero/events"

  /** What one request and the settings contribute; the digest is that of the request's body. */
  datatype Request = Request(timestamp: string, nonce: string, identity: string, audience: string, environment: string,
                             scope: string, idempotencyKey: string, digest: string)

  predicate FieldOk(f: string) {
    f != "" && '\n' !in f && '\r' !in f
  }

  function Join(fields: seq<string>): string
    requires fields != []
  {
    if |fields| == 1 then fields[0] else fields[0] + "\n" + Join(fields[1..])
  }

  function SigningFields(r: Request): seq<string> {
    [VERSION, "POST", PATH, r.timestamp, r.nonce, r.identity, r.audience, r.environment, r.scope, r.idempotencyKey,
     r.digest]
  }

  /** The text that is signed; None is the signing-configuration error. */
  function Signed(r: Request): Option<string> {
    var fields := SigningFields(r);
    if forall i | 0 <= i < |fields| :: FieldOk(fields[i]) then Some(Join(fields)) else None
  }

  // ---------------------------------------------------------------- the signed text, line by line

  /** The lines of a text. */
  function Lines(s: string): (lines: seq<string>)
    ensures lines != []
  {
    if s == "" then [""]
    else if s[0] == '\n' then [""] + Lines(s[1..])
    else
      var rest := Lines(s[1..]);
      [[s[0]] + rest[0]] + rest[1..]
  }

  lemma {:induction false} LinesOfField(f: string, rest: string)
    requires '\n' !in f
    ensures Lines(f + rest) == [f + Lines(rest)[0]] + Lines(rest)[1..]
  {
    if f == "" {
      assert f + rest == rest && f + Lines(rest)[0] == Lines(rest)[0];
    } else {
      assert (f + rest)[1..] == f[1..] + rest;
      LinesOfField(f[1..], rest);
      assert [f[0]] + (f[1..] + Lines(rest)[0]) == f + Lines(rest)[0];
    }
  }

  /** Joined fields are the lines of the text. */
  lemma {:induction false} JoinReadsBack(fields: seq<string>)
    requires fields != [] && forall i | 0 <= i < |fields| :: '\n' !in fields[i]
    ensures Lines(Join(fields)) == fields
  {
    if |fields| == 1 {
      LinesOfField(fields[0], "");
      assert fields[0] + "" == fields[0];
    } else {
      var rest := "\n" + Join(fields[1..]);
      JoinReadsBack(fields[1..]);
      assert rest[1..] == Join(fields[1..]);
      LinesOfField(fields[0], rest);
      assert Join(fields) == fields[0] + rest && fields[0] + "" == fields[0];
      assert fields == [fields[0]] + fields[1..];
    }
  }

  lemma JoinIsInjective(a: seq<string>, b: seq<string>)
    requires a != [] && b != [] && Join(a) == Join(b)
    requires forall i | 0 <= i < |a| :: '\n' !in a[i]
    requires forall i | 0 <= i < |b| :: '\n' !in b[i]
    ensures a == b
  {
    JoinReadsBack(a);
    JoinReadsBack(b);
  }

  /** Neither empty nor broken into lines. */
  ghost predicate OneLine(f: string) {
    f != "" && forall i | 0 <= i < |f| :: f[i] != '\n' && f[i] != '\r'
  }

  lemma CheckedFields(r: Request)
    ensures (forall i | 0 <= i < |SigningFields(r)| :: FieldOk(SigningFields(r)[i])) <==>
            && OneLine(r.timestamp) && OneLine(r.nonce) && OneLine(r.identity) && OneLine(r.audience)
            && OneLine(r.environment) && OneLine(r.scope) && OneLine(r.idempotencyKey) && OneLine(r.digest)
  {
    var fields := SigningFields(r);
    assert OneLine(VERSION) && OneLine("POST") && OneLine(PATH);
    forall i | 0 <= i < |fields|
      ensures FieldOk(fields[i]) <==> OneLine(fields[i])
    {
    }
    hide OneLine, FieldOk;
    assert fields[0] == VERSION && fields[1] == "POST" && fields[2] == PATH && fields[3] == r.timestamp;
    assert fields[4] == r.nonce && fields[5] == r.identity && fields[6] == r.audience && fields[7] == r.environment;
    assert fields[8] == r.scope && fields[9] == r.idempotencyKey && fields[10] == r.digest && |fields| == 11;
  }

  /** A request is signed unless one of its fields is empty or holds a line break, and what is signed has eleven lines:
      the version, the method, the path and the fields of the request. */
  lemma SignedExactly(r: Request)
    ensures Signed(r).Some? <==>
            && OneLine(r.timestamp) && OneLine(r.nonce) && OneLine(r.identity) && OneLine(r.audience)
            && OneLine(r.environment) && OneLine(r.scope) && OneLine(r.idempotencyKey) && OneLine(r.digest)
    ensures Signed(r).Some? ==>
              Lines(Signed(r).value) ==
              ["HMAC-V2", "POST", "/api/v1/integrations/breero/events", r.timestamp, r.nonce, r.identity, r.audience,
               r.environment, r.scope, r.idempotencyKey, r.digest]
  {
    CheckedFields(r);
    hide Join, Lines, OneLine;
    if Signed(r).Some? {
      JoinReadsBack(SigningFields(r));
    }
  }

  /** A signing string determines every field that was signed. */
  lemma SigningIsUnambiguous(a: Request, b: Request)
    requires Signed(a) == Signed(b) && Signed(a).Some?
    ensures a == b
  {
    hide Signed, Lines;
    SignedExactly(a);
    SignedExactly(b);
  }
}
