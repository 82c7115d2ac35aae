/** The blocked response, the tenant of an API key, and the decision to forward. */
module Proxy {
  import opened Ast
  import opened Analyzer

  // ---------- The reason of a blocked request ----------

  predicate IsPrintable(c: char) {
    32 as char <= c <= 126 as char
  }

  function Printable(s: string): (r: string)
    ensures forall c <- r :: IsPrintable(c)
  {
    if s == "" then "" else (if IsPrintable(s[0]) then [s[0]] else "") + Printable(s[1..])
  }

  lemma {:induction false} PrintableConcat(a: string, b: string)
    ensures Printable(a + b) == Printable(a) + Printable(b)
  {
    if a == "" {
      assert a + b == b;
    } else {
      assert (a + b)[1..] == a[1..] + b;
      PrintableConcat(a[1..], b);
    }
  }

  /** Sanitising keeps the characters from space to tilde, each in its place, and no others. */
  lemma SanitizingKeeps(before: string, c: char, after: string)
    ensures Printable(before + [c] + after) ==
            Printable(before) + (if ' ' <= c <= '~' then [c] else []) + Printable(after)
  {
    PrintableConcat(before + [c], after);
    PrintableConcat(before, [c]);
    assert Printable([c]) == if IsPrintable(c) then [c] else "";
  }

  /** Sanitising is the identity exactly on printable ASCII, hence idempotent. */
  lemma {:induction false} SanitizingFixesPrintable(s: string)
    ensures Printable(s) == s <==> forall c <- s :: ' ' <= c <= '~'
    ensures Printable(Printable(s)) == Printable(s)
    decreases |s|
  {
    if forall c <- s :: IsPrintable(c) {
      PrintableKeeps(s);
    }
    PrintableKeeps(Printable(s));
  }

  lemma {:induction false} PrintableKeeps(s: string)
    requires forall c <- s :: IsPrintable(c)
    ensures Printable(s) == s
  {
    if s != "" {
      assert forall c | c in s[1..] :: c in s;
      PrintableKeeps(s[1..]);
    }
  }

  method SanitizeReason(reason: string) returns (r: string)
    ensures r == Printable(reason)
  {
    r := "";
    for i := 0 to |reason|
      invariant r == Printable(reason[..i])
    {
      assert reason[..i + 1] == reason[..i] + [reason[i]];
      PrintableConcat(reason[..i], [reason[i]]);
      assert Printable([reason[i]]) == if IsPrintable(reason[i]) then [reason[i]] else "";
      if reason[i] >= 32 as char && reason[i] <= 126 as char {
        r := r + [reason[i]];
      }
    }
    assert reason[..|reason|] == reason;
  }

  /** How Go's %q verb writes a printable ASCII character between its quotes. */
  function EscapeChar(c: char): string {
    if c == '\"' || c == '\\' then ['\\', c] else [c]
  }

  function Escape(s: string): string {
    if s == "" then "" else EscapeChar(s[0]) + Escape(s[1..])
  }

  function Quote(s: string): string {
    "\"" + Escape(s) + "\""
  }

  const ERROR_FIELD := "error"

  const BLOCKED := "request blocked"

  const REASON_FIELD := "reason"

  const BODY_HEAD := "{\"error\": \"request blocked\", \"reason\": "

  function BlockedBody(reason: string): string {
    BODY_HEAD + Quote(Printable(reason)) + "}"
  }

  // ---------- JSON objects of strings (sections 2, 4 and 7 of RFC 8259) ----------

  datatype Scanned = Scanned(text: string, rest: string)

  function HexDigit(c: char): Option<nat> {
    if '0' <= c <= '9' then Some((c - '0') as nat)
    else if 'a' <= c <= 'f' then Some((c - 'a') as nat + 10)
    else if 'A' <= c <= 'F' then Some((c - 'A') as nat + 10)
    else None
  }

  function CodeUnit(s: string): Option<nat>
    requires |s| == 4
  {
    var a, b, c, d := HexDigit(s[0]), HexDigit(s[1]), HexDigit(s[2]), HexDigit(s[3]);
    if a.Some? && b.Some? && c.Some? && d.Some?
    then Some(((a.value * 16 + b.value) * 16 + c.value) * 16 + d.value) else None
  }

  function Unescaped(c: char): Option<char> {
    match c
    case '\"' => Some('\"')
    case '\\' => Some('\\')
    case '/' => Some('/')
    case 'b' => Some(8 as char)
    case 'f' => Some(12 as char)
    case 'n' => Some('\n')
    case 'r' => Some('\r')
    case 't' => Some('\t')
    case _ => None
  }

  /** The characters up to the closing quote, decoded; a lone surrogate is not a character. */
  function Scan(s: string): (r: Option<Scanned>)
    ensures r.Some? ==> |r.value.rest| < |s|
    decreases |s|
  {
    if s == "" || s[0] < ' ' then None
    else if s[0] == '\"' then Some(Scanned("", s[1..]))
    else if s[0] != '\\' then Prepend(s[0], Scan(s[1..]))
    else if |s| < 2 then None
    else if s[1] != 'u' then
      if Unescaped(s[1]).None? then None else Prepend(Unescaped(s[1]).value, Scan(s[2..]))
    else if |s| < 6 then None
    else
      var unit := CodeUnit(s[2..6]);
      if unit.None? || 0xD800 <= unit.value then None
      else Prepend(unit.value as char, Scan(s[6..]))
  }

  function Prepend(c: char, scanned: Option<Scanned>): Option<Scanned> {
    if scanned.None? then None else Some(Scanned([c] + scanned.value.text, scanned.value.rest))
  }

  function SkipSpace(s: string): (r: string)
    ensures |r| <= |s|
  {
    if s != "" && (s[0] == ' ' || s[0] == '\t' || s[0] == '\n' || s[0] == '\r') then SkipSpace(s[1..]) else s
  }

  function StringAt(s: string): (r: Option<Scanned>)
    ensures r.Some? ==> |r.value.rest| < |s|
  {
    var t := SkipSpace(s);
    if t != "" && t[0] == '\"' then Scan(t[1..]) else None
  }

  /** The text after one expected punctuation character. */
  function After(s: string, c: char): (r: Option<string>)
    ensures r.Some? ==> |r.value| < |s|
  {
    var t := SkipSpace(s);
    if t != "" && t[0] == c then Some(t[1..]) else None
  }

  datatype Member = Member(name: string, value: string)

  function Members(s: string): Option<seq<Member>>
    decreases |s|
  {
    var name := StringAt(s);
    if name.None? then None else
    var colon := After(name.value.rest, ':');
    if colon.None? then None else
    var value := StringAt(colon.value);
    if value.None? then None else
    var member := Member(name.value.text, value.value.text);
    var close, comma := After(value.value.rest, '}'), After(value.value.rest, ',');
    if close.Some? then (if SkipSpace(close.value) == "" then Some([member]) else None)
    else if comma.None? then None
    else
      var more := Members(comma.value);
      if more.None? then None else Some([member] + more.value)
  }

  /** The members of a non-empty JSON object whose values are strings. */
  function Object(s: string): Option<seq<Member>> {
    var open := After(s, '{');
    if open.None? then None else Members(open.value)
  }

  lemma ScanChar(c: char, tail: string)
    requires IsPrintable(c)
    ensures Scan(EscapeChar(c) + tail) == Prepend(c, Scan(tail))
  {
  }

  lemma ScanEnd(rest: string)
    ensures Scan("\"" + rest) == Some(Scanned("", rest))
  {
  }

  lemma ScanStep(c: char, s: string, end: string, rest: string)
    requires IsPrintable(c) && Scan(Escape(s) + end) == Some(Scanned(s, rest))
    ensures Scan(Escape([c] + s) + end) == Some(Scanned([c] + s, rest))
  {
    ScanChar(c, Escape(s) + end);
    assert ([c] + s)[1..] == s;
    assert Escape([c] + s) + end == EscapeChar(c) + (Escape(s) + end);
  }

  /** Scanning what was escaped gives it back and stops at the closing quote. */
  lemma {:induction false} ScanUndoesEscape(s: string, end: string, rest: string)
    requires (forall c <- s :: IsPrintable(c)) && end == "\"" + rest
    ensures Scan(Escape(s) + end) == Some(Scanned(s, rest))
    decreases |s|
  {
    if s == "" {
      assert Escape(s) + end == end;
      ScanEnd(rest);
    } else {
      assert s[0] in s && forall c | c in s[1..] :: c in s;
      ScanUndoesEscape(s[1..], end, rest);
      ScanStep(s[0], s[1..], end, rest);
      assert [s[0]] + s[1..] == s;
    }
  }

  lemma StringAtQuote(s: string, rest: string)
    requires forall c <- s :: IsPrintable(c)
    ensures StringAt(Quote(s) + rest) == Some(Scanned(s, rest))
  {
    var text, end := Quote(s) + rest, "\"" + rest;
    ScanUndoesEscape(s, end, rest);
    assert text == "\"" + (Escape(s) + end);
    assert SkipSpace(text) == text && text[1..] == Escape(s) + end;
  }

  lemma StringAfterSpace(s: string)
    ensures StringAt(" " + s) == StringAt(s)
  {
  }

  lemma {:induction false} PlainEscape(s: string)
    requires '\"' !in s && '\\' !in s
    ensures Escape(s) == s
  {
    if s != "" {
      assert s[0] in s && forall c | c in s[1..] :: c in s;
      PlainEscape(s[1..]);
      assert [s[0]] + s[1..] == s;
    }
  }

  lemma AfterHere(s: string, c: char)
    requires s != "" && s[0] == c && c != ' ' && c != '\t' && c != '\n' && c != '\r'
    ensures After(s, c) == Some(s[1..])
  {
  }

  /** One member, read piece by piece. */
  lemma ReadMember(s: string, name: string, colon: string, value: string, end: string)
    requires StringAt(s) == Some(Scanned(name, ":" + colon)) && StringAt(colon) == Some(Scanned(value, end))
    ensures end == "}" ==> Members(s) == Some([Member(name, value)])
    ensures end != "" && end[0] == ',' && Members(end[1..]).Some? ==>
              Members(s) == Some([Member(name, value)] + Members(end[1..]).value)
  {
    AfterHere(":" + colon, ':');
    assert (":" + colon)[1..] == colon;
    if end == "}" {
      AfterHere(end, '}');
      assert end[1..] == "";
    }
    if end != "" && end[0] == ',' {
      AfterHere(end, ',');
      assert After(end, '}').None?;
    }
  }

  /** A quoted name, a colon, a space and a quoted value. */
  function Pair(name: string, value: string, end: string): string {
    Quote(name) + (":" + (" " + (Quote(value) + end)))
  }

  lemma ReadPair(name: string, value: string, end: string)
    requires (forall c <- name :: IsPrintable(c)) && (forall c <- value :: IsPrintable(c))
    ensures var s := Pair(name, value, end);
            && (end == "}" ==> Members(s) == Some([Member(name, value)]))
            && (end != "" && end[0] == ',' && Members(end[1..]).Some? ==>
                  Members(s) == Some([Member(name, value)] + Members(end[1..]).value))
  {
    var colon := " " + (Quote(value) + end);
    StringAtQuote(name, ":" + colon);
    StringAtQuote(value, end);
    StringAfterSpace(Quote(value) + end);
    ReadMember(Pair(name, value, end), name, colon, value, end);
  }

  /** Leading space before a member does not matter. */
  lemma MembersSkipSpace(s: string)
    requires s != "" && s[0] == '\"'
    ensures Members(" " + s) == Members(s)
  {
    assert (" " + s)[1..] == s;
  }

  lemma OpenObject(members: string)
    ensures Object("{" + members) == Members(members)
  {
  }

  /** An object of two pairs. */
  lemma ObjectOfTwo(n1: string, v1: string, n2: string, v2: string)
    requires (forall c <- n1 :: IsPrintable(c)) && (forall c <- v1 :: IsPrintable(c))
    requires (forall c <- n2 :: IsPrintable(c)) && (forall c <- v2 :: IsPrintable(c))
    ensures Object("{" + Pair(n1, v1, ", " + Pair(n2, v2, "}"))) == Some([Member(n1, v1)] + [Member(n2, v2)])
  {
    var last := Pair(n2, v2, "}");
    var end := ", " + last;
    assert Members(end[1..]) == Some([Member(n2, v2)]) by {
      ReadPair(n2, v2, "}");
      MembersSkipSpace(last);
      assert end[1..] == " " + last;
    }
    assert end != "" && end[0] == ',';
    ReadPair(n1, v1, end);
    OpenObject(Pair(n1, v1, end));
  }

  lemma PairOfPlain(name: string, value: string, end: string)
    requires '\"' !in name && '\\' !in name && '\"' !in value && '\\' !in value
    ensures Pair(name, value, end) == ("\"" + name + "\": \"" + value + "\"") + end
  {
    PlainEscape(name);
    PlainEscape(value);
  }

  lemma PairOfPlainName(name: string, value: string, end: string)
    requires '\"' !in name && '\\' !in name
    ensures Pair(name, value, end) == ("\"" + name + "\": ") + (Quote(value) + end)
  {
    PlainEscape(name);
  }

  lemma Regroup(a: string, b: string, c: string, d: string, e: string)
    ensures a + (b + (c + (d + e))) == (a + (b + c) + d) + e
  {
  }

  /** The start of the response in pieces. */
  lemma HeadInPieces()
    ensures "{" + (("\"" + ERROR_FIELD + "\": \"" + BLOCKED + "\"") + ", ") + ("\"" + REASON_FIELD + "\": ") ==
            BODY_HEAD
  {
  }

  predicate IsPlain(s: string) {
    forall c <- s :: IsPrintable(c) && c != '\"' && c != '\\'
  }

  lemma PlainConstants()
    ensures IsPlain(ERROR_FIELD) && IsPlain(BLOCKED) && IsPlain(REASON_FIELD)
  {
  }

  lemma PairsOfPlain(error: string, blocked: string, field: string, value: string)
    requires IsPlain(error) && IsPlain(blocked) && IsPlain(field)
    ensures "{" + Pair(error, blocked, ", " + Pair(field, value, "}")) ==
            ("{" + (("\"" + error + "\": \"" + blocked + "\"") + ", ") + ("\"" + field + "\": "))
            + (Quote(value) + "}")
  {
    PairOfPlain(error, blocked, ", " + Pair(field, value, "}"));
    PairOfPlainName(field, value, "}");
    Regroup("{", "\"" + error + "\": \"" + blocked + "\"", ", ", "\"" + field + "\": ", Quote(value) + "}");
  }

  lemma BodyInPieces(reason: string)
    ensures BlockedBody(reason) ==
            "{" + Pair(ERROR_FIELD, BLOCKED, ", " + Pair(REASON_FIELD, Printable(reason), "}"))
  {
    PlainConstants();
    PairsOfPlain(ERROR_FIELD, BLOCKED, REASON_FIELD, Printable(reason));
    HeadInPieces();
  }

  /** For every reason the response body is a JSON object whose reason is the sanitised one. */
  lemma BlockedBodyDecodes(reason: string)
    ensures Object(BlockedBody(reason)) ==
            Some([Member(ERROR_FIELD, BLOCKED)] + [Member(REASON_FIELD, Printable(reason))])
  {
    PlainConstants();
    BodyInPieces(reason);
    ObjectOfTwo(ERROR_FIELD, BLOCKED, REASON_FIELD, Printable(reason));
  }

  // ---------- The tenant of an API key ----------

  predicate HasContent(s: string) {
    exists i | 0 <= i < |s| :: s[i] != '_' && s[i] != ' '
  }

  /** An underscore with content before it and at least one character after it. */
  predicate IsCut(key: string, i: nat) {
    i < |key| - 1 && key[i] == '_' && HasContent(key[..i])
  }

  /** The tenant is what precedes the last cut, or the whole key when there is none. */
  ghost predicate IsTenantOf(key: string, tenant: string) {
    || (exists i: nat :: IsCut(key, i) && tenant == key[..i] && forall j: nat :: i < j ==> !IsCut(key, j))
    || (tenant == key && forall i: nat :: !IsCut(key, i))
  }

  method HasLeadingContent(s: string) returns (r: bool)
    ensures r <==> HasContent(s)
  {
    for i := 0 to |s|
      invariant forall j | 0 <= j < i :: s[j] == '_' || s[j] == ' '
    {
      if s[i] != '_' && s[i] != ' ' {
        return true;
      }
    }
    return false;
  }

  method ExtractTenantID(apiKey: string) returns (tenant: string)
    ensures IsTenantOf(apiKey, tenant)
  {
    if apiKey == "" {
      return "";
    }
    var i := |apiKey|;
    while i > 0
      invariant 0 <= i <= |apiKey|
      invariant forall j: nat :: i <= j ==> !IsCut(apiKey, j)
    {
      i := i - 1;
      if apiKey[i] == '_' {
        var content := HasLeadingContent(apiKey[..i]);
        if content && i < |apiKey| - 1 {
          assert IsCut(apiKey, i);
          return apiKey[..i];
        }
      }
    }
    return apiKey;
  }

  /** A tenant of the key, looked for from position `i` on. */
  ghost function SomeTenant(key: string, i: nat): (tenant: string)
    requires i <= |key| && forall j: nat | j < i :: IsCut(key, j) ==> exists k: nat :: i <= k && IsCut(key, k)
    ensures IsTenantOf(key, tenant)
    decreases |key| - i
  {
    if k: nat :| i <= k && IsCut(key, k) then
      if l: nat :| k < l && IsCut(key, l) then SomeTenant(key, l) else key[..k]
    else key
  }

  lemma TenantUnique(key: string, a: string, b: string)
    requires IsTenantOf(key, a) && IsTenantOf(key, b)
    ensures a == b
  {
  }

  lemma TenantOfKey(tenant: string, secret: string)
    requires HasContent(tenant) && secret != "" && '_' !in secret
    ensures IsTenantOf(tenant + "_" + secret, tenant)
  {
    var key, n := tenant + "_" + secret, |tenant|;
    assert key[..n] == tenant && IsCut(key, n);
    forall j: nat | n < j < |key|
      ensures key[j] != '_'
    {
      assert key[j] == secret[j - n - 1];
    }
  }

  /** A tenant with content and a secret without underscore are told apart. */
  lemma TenantRoundTrip(tenant: string, secret: string, extracted: string)
    requires (exists c <- tenant :: c != '_' && c != ' ') && secret != "" && '_' !in secret
    requires IsTenantOf(tenant + "_" + secret, extracted)
    ensures extracted == tenant
  {
    assert HasContent(tenant) by {
      var c :| c in tenant && c != '_' && c != ' ';
      var i :| 0 <= i < |tenant| && tenant[i] == c;
    }
    TenantOfKey(tenant, secret);
    TenantUnique(tenant + "_" + secret, tenant, extracted);
  }

  lemma ContentMeans(s: string)
    ensures HasContent(s) <==> exists c <- s :: c != '_' && c != ' '
  {
    if HasContent(s) {
      var i :| 0 <= i < |s| && s[i] != '_' && s[i] != ' ';
      assert s[i] in s;
    }
  }

  lemma FirstHalf(key: string, i: nat)
    requires IsCut(key, i) && forall j: nat :: i < j ==> !IsCut(key, j)
    ensures PrecedesLast(key, key[..i])
  {
    var rest := key[i + 1..];
    ContentMeans(key[..i]);
    assert key == key[..i] + "_" + rest;
    forall j | 0 <= j < |rest| - 1
      ensures rest[j] != '_'
    {
      LaterContent(key, i, i + 1 + j);
      assert !IsCut(key, i + 1 + j);
    }
  }

  lemma LaterContent(key: string, i: nat, j: nat)
    requires i <= j <= |key| && HasContent(key[..i])
    ensures HasContent(key[..j])
  {
    var k :| 0 <= k < i && key[..i][k] != '_' && key[..i][k] != ' ';
    assert key[..j][k] == key[..i][k];
  }

  lemma LastCut(key: string, tenant: string, rest: string)
    requires key == tenant + "_" + rest && rest != "" && '_' !in rest[..|rest| - 1]
    requires exists c <- tenant :: c != '_' && c != ' '
    ensures IsTenantOf(key, tenant)
  {
    var n := |tenant|;
    ContentMeans(tenant);
    assert key[..n] == tenant && IsCut(key, n);
    forall j: nat | n < j < |key| - 1
      ensures key[j] != '_'
    {
      assert key[j] == rest[..|rest| - 1][j - n - 1];
    }
  }

  /** What precedes an underscore with something after it, has a character other than underscore and space, and
      leaves no later underscore that would do: one can only be the last character. */
  ghost predicate PrecedesLast(key: string, tenant: string) {
    && (exists c <- tenant :: c != '_' && c != ' ')
    && exists rest :: key == tenant + "_" + rest && rest != "" && '_' !in rest[..|rest| - 1]
  }

  /** What precedes any underscore with something after it has no character other than underscore and space. */
  ghost predicate NothingPrecedes(key: string) {
    forall t, rest :: key == t + "_" + rest && rest != "" ==> forall c <- t :: c == '_' || c == ' '
  }

  lemma NothingPrecedesMeans(key: string)
    ensures NothingPrecedes(key) <==> forall i: nat :: !IsCut(key, i)
  {
    if NothingPrecedes(key) {
      forall i: nat
        ensures !IsCut(key, i)
      {
        if i < |key| - 1 && key[i] == '_' {
          assert key == key[..i] + "_" + key[i + 1..];
          ContentMeans(key[..i]);
        }
      }
    }
    if forall i: nat :: !IsCut(key, i) {
      forall t, rest | key == t + "_" + rest && rest != ""
        ensures forall c <- t :: c == '_' || c == ' '
      {
        assert key[..|t|] == t && key[|t|] == '_' && !IsCut(key, |t|);
        ContentMeans(t);
      }
    }
  }

  /** The tenant of a key, without reference to how it is found. */
  lemma TenantExactly(key: string, tenant: string)
    ensures IsTenantOf(key, tenant) <==> PrecedesLast(key, tenant) || (tenant == key && NothingPrecedes(key))
  {
    NothingPrecedesMeans(key);
    if i: nat :| IsCut(key, i) && tenant == key[..i] && forall j: nat :: i < j ==> !IsCut(key, j) {
      FirstHalf(key, i);
    }
    if PrecedesLast(key, tenant) {
      var rest :| key == tenant + "_" + rest && rest != "" && '_' !in rest[..|rest| - 1];
      LastCut(key, tenant, rest);
    }
  }

  // ---------- Forwarding ----------

  datatype Evaluation = EvaluationError | Verdict(allowed: bool, reason: string)

  datatype Reply = Refused(status: nat) | Blocked(status: nat, body: string) | Forwarded | PassedThrough

  datatype Decoded = Malformed | Single(query: string) | Batch(queries: seq<string>)

  datatype Body = TooLarge | Unreadable | Read(bytes: seq<bv8>)

  datatype Verb = Post | Get | OtherVerb

  function LowerChar(c: char): char {
    if 'A' <= c <= 'Z' then ((c as int) + 32) as char else c
  }

  /** Lower case; no character outside ASCII has a lower case in the suffix that is looked for. */
  function Lower(s: string): string {
    seq(|s|, i requires 0 <= i < |s| => LowerChar(s[i]))
  }

  const GRAPHQL := "/graphql"

  /** The paths that are filtered. */
  predicate IsGraphQLPath(path: string) {
    var lower := Lower(path);
    |GRAPHQL| <= |lower| && lower[|lower| - |GRAPHQL|..] == GRAPHQL
  }

  lemma LastSegmentLower(before: string, segment: string)
    requires '/' !in segment
    ensures IsGraphQLPath(before + "/" + segment) <==> "/" + Lower(segment) == GRAPHQL
  {
    var path := before + "/" + segment;
    var lower, tail := Lower(path), "/" + Lower(segment);
    assert lower == Lower(before) + tail;
    assert GRAPHQL[0] == '/' && forall i | 0 < i < |GRAPHQL| :: GRAPHQL[i] != '/';
    assert forall i | 0 < i < |tail| :: tail[i] == LowerChar(segment[i - 1]) && tail[i] != '/';
    if IsGraphQLPath(path) {
      var n := |lower| - |GRAPHQL|;
      assert lower[n] == GRAPHQL[0] && forall i | n < i < |lower| :: lower[i] == GRAPHQL[i - n];
      assert lower[|before|] == '/';
      assert n == |before|;
    }
  }

  /** The i-th letter of the word graphql, small or capital. */
  predicate IsLetter(segment: string, i: nat)
    requires i < |segment| && i < 7
  {
    segment[i] == "graphql"[i] || segment[i] == "GRAPHQL"[i]
  }

  predicate ReadsGraphQL(segment: string) {
    |segment| == 7 && forall i | 0 <= i < 7 :: IsLetter(segment, i)
  }

  lemma LetterReads(c: char, small: char, capital: char)
    requires 'a' <= small <= 'z' && capital as int + 32 == small as int
    ensures LowerChar(c) == small <==> c == small || c == capital
  {
  }

  lemma LettersMatch()
    ensures |GRAPHQL| == 8 && GRAPHQL[0] == '/'
    ensures forall i | 0 <= i < 7 :: GRAPHQL[i + 1] == "graphql"[i] && 'a' <= "graphql"[i] <= 'z'
    ensures forall i | 0 <= i < 7 :: "GRAPHQL"[i] as int + 32 == "graphql"[i] as int
  {
  }

  lemma LowerReads(segment: string)
    ensures "/" + Lower(segment) == GRAPHQL <==> ReadsGraphQL(segment)
  {
    var tail := "/" + Lower(segment);
    assert |tail| == |segment| + 1 && forall i | 0 <= i < |segment| :: tail[i + 1] == LowerChar(segment[i]);
    LettersMatch();
    if |segment| == 7 {
      forall j | 1 <= j < 8
        ensures tail[j] == GRAPHQL[j] <==> IsLetter(segment, j - 1)
      {
        assert GRAPHQL[(j - 1) + 1] == "graphql"[j - 1];
        LetterReads(segment[j - 1], "graphql"[j - 1], "GRAPHQL"[j - 1]);
      }
      if ReadsGraphQL(segment) {
        assert forall j | 1 <= j < 8 :: tail[j] == GRAPHQL[j];
      }
      if tail == GRAPHQL {
        forall i | 0 <= i < 7
          ensures IsLetter(segment, i)
        {
          assert tail[i + 1] == GRAPHQL[i + 1];
        }
      }
    }
  }

  /** A path is filtered exactly when its last segment reads graphql in any case. In particular a path with
      a trailing slash is not, nor one without a slash. */
  lemma LastSegmentDecides(before: string, segment: string)
    requires '/' !in segment
    ensures IsGraphQLPath(before + "/" + segment) <==> ReadsGraphQL(segment)
    ensures !IsGraphQLPath(segment)
  {
    LastSegmentLower(before, segment);
    LowerReads(segment);
    var lower := Lower(segment);
    assert forall i | 0 <= i < |lower| :: lower[i] == LowerChar(segment[i]) && lower[i] != '/';
    assert |GRAPHQL| <= |lower| ==> lower[|lower| - |GRAPHQL|..][0] != GRAPHQL[0];
  }

  lemma TrailingSlashUnfiltered(path: string)
    ensures !IsGraphQLPath(path + "/")
  {
    LastSegmentDecides(path, "");
    assert path + "/" + "" == path + "/";
  }

  /** A request: `decode` is what the JSON library makes of a body, `getQuery` and `getBody` the query
      parameter and the body built from it for a GET. */
  datatype Request = Request(
    path: string, verb: Verb, jsonContentType: bool, body: Body, decoded: Decoded, getQuery: string,
    getBody: seq<bv8>, apiKey: string)

  /** The reply that an evaluation calls for: 500 when it failed, the call upstream when it allows, and 403 with
      a JSON object that gives the sanitised reason when it denies. */
  ghost predicate Answers(evaluation: Evaluation, reply: Reply) {
    match evaluation
    case EvaluationError => reply == Refused(500)
    case Verdict(allowed, reason) =>
      if allowed then reply == Forwarded
      else
        && reply.Blocked? && reply.status == 403
        && Object(reply.body) == Some([Member("error", "request blocked"), Member("reason", Printable(reason))])
  }

  /** Forwards to upstream only what was parsed and allowed. `parse` is the analyser behind its timeout;
      `evaluate` answers the n-th evaluation. */
  class Handler {
    const parse: string -> Option<Summary>
    const evaluate: (Summary, nat) -> Evaluation
    var evaluations: nat
    var upstream: seq<seq<bv8>>  // the bodies forwarded from GraphQL paths
    var passed: nat              // the requests on other paths

    constructor (parse: string -> Option<Summary>, evaluate: (Summary, nat) -> Evaluation)
      ensures evaluations == 0 && upstream == [] && passed == 0
    {
      this.parse, this.evaluate := parse, evaluate;
      evaluations, upstream, passed := 0, [], 0;
    }

    function Judge(evaluation: Evaluation): Reply {
      match evaluation
      case EvaluationError => Refused(500)
      case Verdict(true, _) => Forwarded
      case Verdict(false, reason) => Blocked(403, BlockedBody(reason))
    }

    lemma JudgeAnswers(evaluation: Evaluation)
      ensures Answers(evaluation, Judge(evaluation))
    {
      if evaluation.Verdict? {
        BlockedBodyDecodes(evaluation.reason);
        assert [Member(ERROR_FIELD, BLOCKED)] + [Member(REASON_FIELD, Printable(evaluation.reason))] ==
               [Member("error", "request blocked"), Member("reason", Printable(evaluation.reason))];
      }
    }

    /** The item is there, was parsed, and the n-th evaluation allows it. */
    ghost predicate ItemCleared(query: string, n: nat) {
      && query != "" && parse(query).Some?
      && evaluate(parse(query).value, n).Verdict? && evaluate(parse(query).value, n).allowed
    }

    /** The k-th item is the first of a batch that is not cleared. */
    ghost predicate FirstOffender(queries: seq<string>, n: nat, k: nat) {
      && k < |queries| && !ItemCleared(queries[k], n + k)
      && forall i | 0 <= i < k :: ItemCleared(queries[i], n + i)
    }

    /** The reply to a batch, after `made` evaluations of which the first is the n-th: that to its first offending
        item, or the call upstream. */
    ghost predicate AnswersBatch(queries: seq<string>, n: nat, reply: Reply, made: nat) {
      if queries == [] then reply == Refused(400) && made == 0
      else
        && (forall k: nat | FirstOffender(queries, n, k) ::
              if queries[k] == "" || parse(queries[k]).None? then reply == Refused(400) && made == k
              else Answers(evaluate(parse(queries[k]).value, n + k), reply) && made == k + 1)
        && ((forall k: nat :: !FirstOffender(queries, n, k)) ==> reply == Forwarded && made == |queries|)
    }

    /** The reply to one query, evaluated for the tenant of the key. */
    ghost predicate AnswersSingle(query: string, apiKey: string, n: nat, reply: Reply, made: nat) {
      if query == "" || parse(query).None? then reply == Refused(400) && made == 0
      else
        && made == 1
        && (exists tenant :: IsTenantFor(parse(query).value, apiKey, tenant))
        && forall tenant | IsTenantFor(parse(query).value, apiKey, tenant) ::
             Answers(evaluate(parse(query).value.(tenantId := tenant), n), reply)
    }

    /** What the n-th evaluation makes of a batch item. */
    function ItemReply(query: string, n: nat): Reply {
      if query == "" || parse(query).None? then Refused(400) else Judge(evaluate(parse(query).value, n))
    }

    /** The reply to a batch, decided by its first offending item. */
    function BatchReply(queries: seq<string>, n: nat): (reply: Reply)
      ensures !reply.PassedThrough?
    {
      if queries == [] then Forwarded
      else if ItemReply(queries[0], n) != Forwarded then ItemReply(queries[0], n)
      else BatchReply(queries[1..], n + 1)
    }

    /** How many items of a batch are evaluated: all up to the first offending one, and that one too
        unless it is empty or does not parse. */
    function Evaluated(queries: seq<string>, n: nat): nat {
      if queries == [] || queries[0] == "" || parse(queries[0]).None? then 0
      else if ItemReply(queries[0], n) != Forwarded then 1
      else 1 + Evaluated(queries[1..], n + 1)
    }

    method HandleBatch(bytes: seq<bv8>, queries: seq<string>) returns (reply: Reply)
      modifies this`evaluations, this`upstream
      ensures reply == if queries == [] then Refused(400) else BatchReply(queries, old(evaluations))
      ensures upstream == old(upstream) + if reply.Forwarded? then [bytes] else []
      ensures evaluations == old(evaluations) + Evaluated(queries, old(evaluations))
    {
      if |queries| == 0 {
        return Refused(400);
      }
      for i := 0 to |queries|
        invariant evaluations == old(evaluations) + i && upstream == old(upstream)
        invariant BatchReply(queries[i..], evaluations) == BatchReply(queries, old(evaluations))
        invariant evaluations + Evaluated(queries[i..], evaluations) ==
                  old(evaluations) + Evaluated(queries, old(evaluations))
      {
        assert queries[i..][0] == queries[i] && queries[i..][1..] == queries[i + 1..];
        if queries[i] == "" {
          return Refused(400);
        }
        var info := parse(queries[i]);
        if info.None? {
          return Refused(400);
        }
        var result := evaluate(info.value, evaluations);
        evaluations := evaluations + 1;
        if result.EvaluationError? {
          return Refused(500);
        }
        if !result.allowed {
          var reason := SanitizeReason(result.reason);
          return Blocked(403, BODY_HEAD + Quote(reason) + "}");
        }
      }
      upstream := upstream + [bytes];
      return Forwarded;
    }

    ghost predicate IsTenantFor(info: Summary, apiKey: string, tenant: string) {
      if apiKey == "" then tenant == info.tenantId else IsTenantOf(apiKey, tenant)
    }

    method EvaluateAndForward(bytes: seq<bv8>, info: Summary, apiKey: string) returns (reply: Reply)
      modifies this`evaluations, this`upstream
      ensures exists tenant :: IsTenantFor(info, apiKey, tenant)
      ensures forall tenant | IsTenantFor(info, apiKey, tenant) ::
                reply == Judge(evaluate(info.(tenantId := tenant), old(evaluations)))
      ensures upstream == old(upstream) + if reply.Forwarded? then [bytes] else []
      ensures forall tenant | IsTenantFor(info, apiKey, tenant) ::
                Answers(evaluate(info.(tenantId := tenant), old(evaluations)), reply)
      ensures evaluations == old(evaluations) + 1
    {
      var tenant := info.tenantId;
      if apiKey != "" {
        tenant := ExtractTenantID(apiKey);
      }
      assert IsTenantFor(info, apiKey, tenant);
      forall other | IsTenantFor(info, apiKey, other)
        ensures other == tenant
      {
        if apiKey != "" {
          TenantUnique(apiKey, tenant, other);
        }
      }
      var result := evaluate(info.(tenantId := tenant), evaluations);
      JudgeAnswers(result);
      evaluations := evaluations + 1;
      if result.EvaluationError? {
        return Refused(500);
      }
      if !result.allowed {
        var reason := SanitizeReason(result.reason);
        return Blocked(403, BODY_HEAD + Quote(reason) + "}");
      }
      upstream := upstream + [bytes];
      return Forwarded;
    }

    /** The evaluation allowed the query of a single request, for the tenant of its key. */
    ghost predicate ClearedSingle(query: string, apiKey: string, n: nat) {
      query != "" && parse(query).Some? &&
      exists tenant ::
        && IsTenantFor(parse(query).value, apiKey, tenant)
        && Judge(evaluate(parse(query).value.(tenantId := tenant), n)).Forwarded?
    }

    /** The evaluations allowed every query of a batch. */
    ghost predicate ClearedBatch(queries: seq<string>, n: nat) {
      queries != [] &&
      forall i | 0 <= i < |queries| ::
        && queries[i] != "" && parse(queries[i]).Some?
        && evaluate(parse(queries[i]).value, n + i).Verdict? && evaluate(parse(queries[i]).value, n + i).allowed
    }

    /** A batch is forwarded exactly when every item was cleared. */
    lemma {:induction false} BatchAllOrNothing(queries: seq<string>, n: nat)
      requires queries != []
      ensures BatchReply(queries, n).Forwarded? <==> ClearedBatch(queries, n)
      decreases |queries|
    {
      var rest := queries[1..];
      ClearedOne(queries[0], n);
      if rest != [] {
        BatchAllOrNothing(rest, n + 1);
        assert ClearedBatch(queries, n) <==> ClearedBatch([queries[0]], n) && ClearedBatch(rest, n + 1) by {
          ClearedSplits(queries, n);
        }
      } else {
        assert queries == [queries[0]];
      }
    }

    lemma ClearedOne(query: string, n: nat)
      ensures ItemReply(query, n).Forwarded? <==> ClearedBatch([query], n)
    {
      if ClearedBatch([query], n) {
        assert [query][0] == query && n + 0 == n;
      }
    }

    lemma ClearedSplits(queries: seq<string>, n: nat)
      requires |queries| > 1
      ensures ClearedBatch(queries, n) <==> ClearedBatch([queries[0]], n) && ClearedBatch(queries[1..], n + 1)
    {
      var rest := queries[1..];
      if ClearedBatch(queries, n) {
        forall i | 0 <= i < |rest|
          ensures rest[i] != "" && parse(rest[i]).Some? && evaluate(parse(rest[i]).value, n + 1 + i).Verdict?
          ensures evaluate(parse(rest[i]).value, n + 1 + i).allowed
        {
          assert rest[i] == queries[i + 1] && n + 1 + i == n + (i + 1);
        }
      }
      if ClearedBatch([queries[0]], n) && ClearedBatch(rest, n + 1) {
        forall i | 0 <= i < |queries|
          ensures queries[i] != "" && parse(queries[i]).Some? && evaluate(parse(queries[i]).value, n + i).Verdict?
          ensures evaluate(parse(queries[i]).value, n + i).allowed
        {
          if i > 0 {
            assert rest[i - 1] == queries[i] && n + 1 + (i - 1) == n + i;
          } else {
            assert [queries[0]][0] == queries[0];
          }
        }
      }
    }

    /** A forwarded batch took one evaluation for each item. */
    lemma {:induction false} ForwardedEvaluatesAll(queries: seq<string>, n: nat)
      requires BatchReply(queries, n).Forwarded?
      ensures Evaluated(queries, n) == |queries|
      decreases |queries|
    {
      if queries != [] {
        ForwardedEvaluatesAll(queries[1..], n + 1);
      }
    }

    /** The first item that is not cleared decides the reply to a refused batch, and no later item is evaluated. */
    lemma {:induction false} FirstOffenderDecides(queries: seq<string>, n: nat) returns (k: nat)
      requires !BatchReply(queries, n).Forwarded?
      ensures k < |queries| && BatchReply(queries, n) == ItemReply(queries[k], n + k)
      ensures !ItemReply(queries[k], n + k).Forwarded?
      ensures forall i | 0 <= i < k :: ItemReply(queries[i], n + i).Forwarded?
      ensures Evaluated(queries, n) == k + if queries[k] == "" || parse(queries[k]).None? then 0 else 1
      decreases |queries|
    {
      if ItemReply(queries[0], n).Forwarded? {
        var j := FirstOffenderDecides(queries[1..], n + 1);
        k := j + 1;
        forall i | 0 < i < k
          ensures ItemReply(queries[i], n + i).Forwarded?
        {
          assert queries[1..][i - 1] == queries[i] && n + 1 + (i - 1) == n + i;
        }
      } else {
        k := 0;
      }
    }

    lemma ItemForwarded(query: string, n: nat)
      ensures ItemReply(query, n).Forwarded? <==> ItemCleared(query, n)
    {
    }

    /** A batch that goes upstream has no offender. */
    lemma ForwardedHasNoOffender(queries: seq<string>, n: nat, k: nat)
      requires queries != [] && BatchReply(queries, n).Forwarded?
      ensures !FirstOffender(queries, n, k)
    {
      BatchAllOrNothing(queries, n);
      if k < |queries| {
        assert ItemCleared(queries[k], n + k);
      }
    }

    /** A refused batch has exactly one first offender. */
    lemma RefusedHasOffender(queries: seq<string>, n: nat) returns (first: nat)
      requires !BatchReply(queries, n).Forwarded?
      ensures FirstOffender(queries, n, first) && forall k: nat | FirstOffender(queries, n, k) :: k == first
      ensures BatchReply(queries, n) == ItemReply(queries[first], n + first)
      ensures Evaluated(queries, n) ==
              first + if queries[first] == "" || parse(queries[first]).None? then 0 else 1
    {
      first := FirstOffenderDecides(queries, n);
      forall i | 0 <= i <= first {
        ItemForwarded(queries[i], n + i);
      }
    }

    /** The reply of a batch and the number of its evaluations are as its first offender demands. */
    lemma BatchAnswered(queries: seq<string>, n: nat)
      requires queries != []
      ensures AnswersBatch(queries, n, BatchReply(queries, n), Evaluated(queries, n))
    {
      if BatchReply(queries, n).Forwarded? {
        ForwardedEvaluatesAll(queries, n);
        forall k: nat {
          ForwardedHasNoOffender(queries, n, k);
        }
      } else {
        var first := RefusedHasOffender(queries, n);
        if queries[first] != "" && parse(queries[first]).Some? {
          JudgeAnswers(evaluate(parse(queries[first]).value, n + first));
        }
      }
    }

    /** Everything that a request on a GraphQL path asks for was decoded, parsed and allowed. */
    ghost predicate Cleared(r: Request, n: nat) {
      match r.verb
      case OtherVerb => false
      case Get => ClearedSingle(r.getQuery, r.apiKey, n)
      case Post =>
        r.jsonContentType && r.body.Read? &&
        match r.decoded
        case Malformed => false
        case Single(query) => ClearedSingle(query, r.apiKey, n)
        case Batch(queries) => ClearedBatch(queries, n)
    }

    /** The reply to a request and the number of evaluations it takes. */
    ghost predicate AnswersRequest(r: Request, n: nat, reply: Reply, made: int) {
      if !IsGraphQLPath(r.path) then reply == PassedThrough && made == 0
      else
        match r.verb
        case OtherVerb => reply == Refused(405) && made == 0
        case Get => made >= 0 && AnswersSingle(r.getQuery, r.apiKey, n, reply, made)
        case Post =>
          if !r.jsonContentType then reply == Refused(415) && made == 0
          else if r.body.TooLarge? then reply == Refused(413) && made == 0
          else if r.body.Unreadable? then reply == Refused(400) && made == 0
          else match r.decoded
            case Malformed => reply == Refused(400) && made == 0
            case Single(query) => made >= 0 && AnswersSingle(query, r.apiKey, n, reply, made)
            case Batch(queries) => made >= 0 && AnswersBatch(queries, n, reply, made)
    }

    /** On a GraphQL path upstream is called once when everything was cleared, with the body of a POST
        unchanged, and never otherwise. */
    method ServeHTTP(r: Request) returns (reply: Reply)
      modifies this
      ensures reply.PassedThrough? <==> !IsGraphQLPath(r.path)
      ensures passed == old(passed) + if IsGraphQLPath(r.path) then 0 else 1
      ensures IsGraphQLPath(r.path) ==> (reply.Forwarded? <==> Cleared(r, old(evaluations)))
      ensures upstream == old(upstream) +
              if !reply.Forwarded? then [] else if r.verb.Get? then [r.getBody] else [r.body.bytes]
      ensures AnswersRequest(r, old(evaluations), reply, evaluations - old(evaluations))
    {
      if !IsGraphQLPath(r.path) {
        passed := passed + 1;
        return PassedThrough;
      }
      match r.verb
      case OtherVerb => return Refused(405);
      case Get =>
        if r.getQuery == "" || parse(r.getQuery).None? {
          return Refused(400);
        }
        reply := EvaluateAndForward(r.getBody, parse(r.getQuery).value, r.apiKey);
      case Post =>
        if !r.jsonContentType {
          return Refused(415);
        }
        if r.body.TooLarge? {
          return Refused(413);
        }
        if r.body.Unreadable? || r.decoded.Malformed? {
          return Refused(400);
        }
        if r.decoded.Batch? {
          reply := HandleBatch(r.body.bytes, r.decoded.queries);
          if r.decoded.queries != [] {
            BatchAllOrNothing(r.decoded.queries, old(evaluations));
            BatchAnswered(r.decoded.queries, old(evaluations));
          }
        } else {
          var query := r.decoded.query;
          if query == "" || parse(query).None? {
            return Refused(400);
          }
          reply := EvaluateAndForward(r.body.bytes, parse(query).value, r.apiKey);
        }
    }
  }
}
