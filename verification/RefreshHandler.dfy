/** How the refresh endpoint collects candidate tokens from the Cookie header and tries them in order. */
module RefreshHandler {
  import opened Prelude
  import opened GoStrings
  import opened RefreshTokens

  const PREFIX: string := "refresh_token" + "="

  /** The `refresh_token=` values among the fields of the header, in order. */
  function HeaderValues(fields: seq<string>): seq<string> {
    if fields == [] then []
    else HeaderValues(Init(fields)) + FieldValue(TrimSpace(Last(fields)))
  }

  function FieldValue(p: string): seq<string> {
    if PREFIX <= p then [p[|PREFIX|..]] else []
  }

  /** `parsed` is what net/http's own cookie parser returned, if anything. */
  function Candidates(header: string, parsed: Option<string>): seq<string> {
    (if parsed.Some? && parsed.value != "" then [parsed.value] else [])
    + (if header == "" then [] else HeaderValues(Split(header, ';')))
  }

  // ---------------------------------------------------------------- headers as they are sent

  /** One `name=value` pair with optional white space around it (RFC 6265, section 4.2.1). */
  datatype Cookie = Cookie(before: string, name: string, value: string, after: string)

  /** The code points with Unicode's White_Space property. */
  predicate WhiteSpace(c: char) {
    var u := c as int;
    || 0x9 <= u <= 0xD || u == 0x20 || u == 0x85 || u == 0xA0 || u == 0x1680 || 0x2000 <= u <= 0x200A
    || u == 0x2028 || u == 0x2029 || u == 0x202F || u == 0x205F || u == 0x3000
  }

  /** What strings.TrimSpace trims, character by character. */
  lemma TrimmedExactly(c: char)
    ensures IsSpace(c) <==> WhiteSpace(c)
    ensures IsSpace(' ') && IsSpace('\t')
    ensures '!' <= c <= '~' ==> !IsSpace(c)
  {
  }

  predicate Blank(s: string) { forall c | c in s :: WhiteSpace(c) }

  predicate Clean(s: string) { s == [] || (!WhiteSpace(s[0]) && !WhiteSpace(s[|s| - 1])) }

  predicate WellFormed(c: Cookie) {
    && Blank(c.before) && Blank(c.after)
    && Clean(c.name) && Clean(c.value)
    && '=' !in c.name
    && ';' !in c.name && ';' !in c.value
  }

  function Text(c: Cookie): string { c.before + (c.name + "=" + c.value) + c.after }

  function Texts(cookies: seq<Cookie>): seq<string> {
    seq(|cookies|, i requires 0 <= i < |cookies| => Text(cookies[i]))
  }

  function Values(cookies: seq<Cookie>): seq<string> {
    if cookies == [] then []
    else Values(Init(cookies)) + if Last(cookies).name == "refresh_token" then [Last(cookies).value] else []
  }

  lemma {:induction false} TrimBlankLeft(pad: string, s: string)
    requires Blank(pad) && (s == [] || !WhiteSpace(s[0]))
    ensures TrimLeft(pad + s) == s
  {
    if pad == [] {
      assert pad + s == s;
    } else {
      assert pad[0] in pad;
      assert (pad + s)[1..] == pad[1..] + s;
      TrimBlankLeft(pad[1..], s);
    }
  }

  lemma {:induction false} TrimBlankRight(s: string, pad: string)
    requires Blank(pad) && (s == [] || !WhiteSpace(s[|s| - 1]))
    ensures TrimRight(s + pad) == s
  {
    if pad == [] {
      assert s + pad == s;
    } else {
      assert pad[|pad| - 1] in pad;
      assert (s + pad)[..|s + pad| - 1] == s + pad[..|pad| - 1];
      TrimBlankRight(s, pad[..|pad| - 1]);
    }
  }

  lemma TrimsToPair(c: Cookie)
    requires WellFormed(c)
    ensures TrimSpace(Text(c)) == c.name + "=" + c.value
  {
    var pair := c.name + "=" + c.value;
    assert !WhiteSpace(pair[0]) && !WhiteSpace(pair[|pair| - 1]);
    assert Text(c) == c.before + (pair + c.after);
    TrimBlankLeft(c.before, pair + c.after);
    TrimBlankRight(pair, c.after);
  }

  /** The prefix test picks the cookies of that name and no others. */
  lemma PrefixIsName(name: string, value: string)
    requires '=' !in name
    ensures FieldValue(name + "=" + value) == if name == "refresh_token" then [value] else []
  {
    hide IsSpace;
    var target, p := "refresh_token", name + "=" + value;
    assert '=' !in target;
    if name == target {
      assert p == PREFIX + value;
    }
    if PREFIX <= p {
      IndexOfHead(target, '=', p[|PREFIX|..]);
      IndexOfHead(name, '=', value);
      assert p == target + ['='] + p[|PREFIX|..];
      assert p == name + ['='] + value;
      assert name == p[..|name|] == target;
      assert p[|PREFIX|..] == value;
    }
  }

  lemma FieldOfCookie(c: Cookie)
    requires WellFormed(c)
    ensures FieldValue(TrimSpace(Text(c))) == if c.name == "refresh_token" then [c.value] else []
  {
    hide FieldValue, TrimSpace, Text, IsSpace;
    TrimsToPair(c);
    PrefixIsName(c.name, c.value);
  }

  lemma {:induction false} SplitUndoesJoin(parts: seq<string>, sep: char, n: nat)
    requires parts != [] && n >= |parts|
    requires forall i | 0 <= i < |parts| :: sep !in parts[i]
    ensures SplitN(Join(parts, sep), sep, n) == parts
  {
    hide SplitN, IndexOf;
    if |parts| == 1 {
      SplitNWhole(parts[0], sep, n);
      assert [parts[0]] == parts;
    } else {
      var head, rest := parts[0], parts[1..];
      SplitUndoesJoin(rest, sep, n - 1);
      SplitNHead(head, sep, Join(rest, sep), n);
      assert [head] + rest == parts;
    }
  }

  lemma {:induction false} JoinLength(parts: seq<string>, sep: char)
    requires parts != []
    ensures |Join(parts, sep)| >= |parts| - 1
  {
    if |parts| > 1 {
      JoinLength(parts[1..], sep);
    }
  }

  lemma {:induction false} ValuesOfTexts(cookies: seq<Cookie>)
    requires forall c | c in cookies :: WellFormed(c)
    ensures HeaderValues(Texts(cookies)) == Values(cookies)
  {
    hide WellFormed, FieldValue, Text, TrimSpace;
    if cookies != [] {
      ValuesOfTexts(Init(cookies));
      assert Init(Texts(cookies)) == Texts(Init(cookies));
      FieldOfCookie(Last(cookies));
    }
  }

  lemma NoSemicolon(c: Cookie)
    requires WellFormed(c)
    ensures ';' !in Text(c) && Text(c) != ""
  {
  }

  /**
   For a header of `;`-separated pairs the candidates are the parser's value, if any, followed
   by exactly the refresh_token values in the order sent.
   */
  lemma CandidatesOfHeader(cookies: seq<Cookie>, parsed: Option<string>)
    requires cookies != [] && forall c | c in cookies :: WellFormed(c)
    ensures Candidates(Join(Texts(cookies), ';'), parsed)
         == (if parsed.Some? && parsed.value != "" then [parsed.value] else []) + Values(cookies)
  {
    hide WellFormed, Text, HeaderValues, SplitN;
    var parts := Texts(cookies);
    forall i | 0 <= i < |parts|
      ensures ';' !in parts[i] && parts[i] != ""
    {
      NoSemicolon(cookies[i]);
    }
    assert Join(parts, ';') != "" by {
      assert parts[0] != "";
    }
    JoinLength(parts, ';');
    SplitUndoesJoin(parts, ';', |Join(parts, ';')| + 1);
    ValuesOfTexts(cookies);
  }

  /** The header a browser sends: the pairs joined by a semicolon and a space. */
  function AsSent(pairs: seq<(string, string)>): string
    requires pairs != []
  {
    var pair := pairs[0].0 + "=" + pairs[0].1;
    if |pairs| == 1 then pair else pair + "; " + AsSent(pairs[1..])
  }

  /** Names and values of visible ASCII characters other than the separators (RFC 6265, section 4.1.1). */
  predicate Sendable(pair: (string, string)) {
    && (forall c | c in pair.0 :: '!' <= c <= '~' && c != '=' && c != ';')
    && (forall c | c in pair.1 :: '!' <= c <= '~' && c != ';')
  }

  /** The same pairs as fields of the header, the first one after `pad`. */
  function Fields(pairs: seq<(string, string)>, pad: string): (cookies: seq<Cookie>)
    ensures |cookies| == |pairs|
  {
    if pairs == [] then [] else [Cookie(pad, pairs[0].0, pairs[0].1, "")] + Fields(pairs[1..], " ")
  }

  lemma {:induction false} FieldsOfHeader(pairs: seq<(string, string)>, pad: string)
    requires pairs != []
    ensures Join(Texts(Fields(pairs, pad)), ';') == pad + AsSent(pairs)
  {
    var cookies, rest := Fields(pairs, pad), Fields(pairs[1..], " ");
    var pair := pairs[0].0 + "=" + pairs[0].1;
    assert cookies == [cookies[0]] + rest;
    assert Text(cookies[0]) == pad + pair + "" == pad + pair;
    hide Text;
    assert Texts(cookies)[1..] == Texts(rest);
    if |pairs| > 1 {
      FieldsOfHeader(pairs[1..], " ");
      assert pad + pair + ";" + (" " + AsSent(pairs[1..])) == pad + (pair + "; " + AsSent(pairs[1..]));
    }
  }

  lemma VisibleIsClean(s: string)
    requires forall c | c in s :: '!' <= c <= '~'
    ensures Clean(s)
  {
    assert s != [] ==> s[0] in s && s[|s| - 1] in s;
  }

  lemma {:induction false} FieldsAreWellFormed(pairs: seq<(string, string)>, pad: string)
    requires Blank(pad) && forall p | p in pairs :: Sendable(p)
    ensures forall c | c in Fields(pairs, pad) :: WellFormed(c)
  {
    if pairs != [] {
      FieldsAreWellFormed(pairs[1..], " ");
      assert pairs[0] in pairs;
      VisibleIsClean(pairs[0].0);
      VisibleIsClean(pairs[0].1);
      assert WellFormed(Cookie(pad, pairs[0].0, pairs[0].1, ""));
    }
  }

  /** The values sent under the name refresh_token, in order. */
  function TokensOf(pairs: seq<(string, string)>): seq<string> {
    if pairs == [] then [] else (if pairs[0].0 == "refresh_token" then [pairs[0].1] else []) + TokensOf(pairs[1..])
  }

  lemma {:induction false} ValuesFromFront(cookies: seq<Cookie>)
    requires cookies != []
    ensures Values(cookies)
         == (if cookies[0].name == "refresh_token" then [cookies[0].value] else []) + Values(cookies[1..])
  {
    if |cookies| > 1 {
      ValuesFromFront(Init(cookies));
      assert Init(cookies)[1..] == Init(cookies[1..]);
    }
  }

  lemma {:induction false} ValuesAreTokens(pairs: seq<(string, string)>, pad: string)
    ensures Values(Fields(pairs, pad)) == TokensOf(pairs)
  {
    if pairs != [] {
      ValuesAreTokens(pairs[1..], " ");
      ValuesFromFront(Fields(pairs, pad));
      assert Fields(pairs, pad)[1..] == Fields(pairs[1..], " ");
    }
  }

  /** For the header a browser sends: the parser's value and then every refresh_token value, in order. */
  lemma CandidatesAsSent(pairs: seq<(string, string)>, parsed: Option<string>)
    requires pairs != [] && forall p | p in pairs :: Sendable(p)
    ensures Candidates(AsSent(pairs), parsed)
         == (if parsed.Some? && parsed.value != "" then [parsed.value] else []) + TokensOf(pairs)
  {
    hide Candidates, WellFormed;
    FieldsAreWellFormed(pairs, "");
    FieldsOfHeader(pairs, "");
    ValuesAreTokens(pairs, "");
    CandidatesOfHeader(Fields(pairs, ""), parsed);
    assert "" + AsSent(pairs) == AsSent(pairs);
  }

  /** A stale cookie in front of a live one of the same name: the live one is tried too. */
  lemma ShadowedCookieIsTried(stale: string, live: string)
    requires stale != "" && Sendable(("refresh_token", stale)) && Sendable(("refresh_token", live))
    ensures Candidates("refresh_token=" + stale + "; refresh_token=" + live, Some(stale)) == [stale, stale, live]
  {
    var name := "refresh_token";
    var pairs := [(name, stale), (name, live)];
    assert pairs[1..] == [(name, live)] && pairs[1..][1..] == [];
    assert AsSent(pairs) == name + "=" + stale + "; " + (name + "=" + live);
    assert name + "=" == "refresh_token=" && "; " + name + "=" == "; refresh_token=";
    assert AsSent(pairs) == "refresh_token=" + stale + "; refresh_token=" + live;
    assert TokensOf([(name, live)]) == [live] by {
      assert [(name, live)][1..] == [];
    }
    assert TokensOf(pairs) == [stale] + [live] == [stale, live];
    hide *;
    CandidatesAsSent(pairs, Some(stale));
  }

  // ------------------------------------------------------------------------- trying them all

  /** The first candidate accepted at the time it is tried, or |cands|. */
  function FirstAccepted(rows: Table, cands: seq<string>, times: seq<int>): (i: nat)
    requires |times| == |cands|
    ensures i <= |cands|
    ensures i < |cands| ==> Accepts(rows, cands[i], times[i])
    ensures forall j | 0 <= j < i :: !Accepts(rows, cands[j], times[j])
  {
    if cands == [] || Accepts(rows, cands[0], times[0]) then 0
    else 1 + FirstAccepted(rows, cands[1..], times[1..])
  }

  method CollectCandidates(header: string, parsed: Option<string>) returns (candidates: seq<string>)
    ensures candidates == Candidates(header, parsed)
  {
    candidates := [];
    if header != "" {
      var parts := Split(header, ';');
      var i := 0;
      while i < |parts|
        invariant i <= |parts|
        invariant candidates == HeaderValues(parts[..i])
      {
        assert Init(parts[..i + 1]) == parts[..i];
        var p := TrimSpace(parts[i]);
        if PREFIX <= p {
          candidates := candidates + [p[|PREFIX|..]];
        }
        i := i + 1;
      }
      assert parts[..i] == parts;
    }
    if parsed.Some? && parsed.value != "" {
      candidates := [parsed.value] + candidates;
    }
  }

  /**
   The refresh endpoint: rotation succeeds exactly when some candidate names a live row, and
   then the row of the first such candidate is the only one that changes.
   */
  method Refresh(store: TokenStore, header: string, parsed: Option<string>, next: string, times: seq<int>)
    returns (owner: Option<string>)
    requires store.Valid()
    requires |times| == |Candidates(header, parsed)|
    requires forall i | 0 <= i < |store.rows| :: store.rows[i].digest != Digest(next)
    modifies store
    ensures store.Valid()
    ensures var cands := Candidates(header, parsed);
            owner.Some? <==> exists k | 0 <= k < |cands| :: Accepts(old(store.rows), cands[k], times[k])
    ensures owner.None? ==> store.rows == old(store.rows)
    ensures var cands, rows := Candidates(header, parsed), old(store.rows);
            var i := FirstAccepted(rows, cands, times);
            i < |cands| ==>
              var row := RowOf(rows, cands[i]);
              && owner == Some(rows[row].userID)
              && store.rows == rows[row := Row(rows[row].userID, Digest(next), times[i] + 604800, false)]
  {
    hide HeaderValues, RefreshTokens.Run, RowOf, Accepts, FirstAccepted;
    var candidates := CollectCandidates(header, parsed);
    owner := None;
    var i := 0;
    while i < |candidates| && owner.None?
      invariant i <= |candidates| && owner.None?
      invariant store.Valid() && store.rows == old(store.rows)
      invariant i <= FirstAccepted(store.rows, candidates, times)
    {
      owner := store.RotateRefreshToken(candidates[i], next, times[i]);
      if owner.Some? {
        return;
      }
      i := i + 1;
    }
  }
}
