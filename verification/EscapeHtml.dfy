/** The HTML escaping applied to every name and message body before it is rendered. */
module EscapeHtml {
  function Entity(c: char): string {
    match c
    case '&' => "&amp;"
    case '<' => "&lt;"
    case '>' => "&gt;"
    case '"' => "&quot;"
    case '\'' => "&#39;"
    case _ => [c]
  }

  function Escape(s: string): string {
    if s == [] then [] else Entity(s[0]) + Escape(s[1..])
  }

  /** A decoder of the five entities: leaves everything else as it is. */
  function Decode(t: string): string {
    if t == [] then []
    else if "&amp;" <= t then ['&'] + Decode(t[5..])
    else if "&lt;" <= t then ['<'] + Decode(t[4..])
    else if "&gt;" <= t then ['>'] + Decode(t[4..])
    else if "&quot;" <= t then ['"'] + Decode(t[6..])
    else if "&#39;" <= t then ['\''] + Decode(t[5..])
    else [t[0]] + Decode(t[1..])
  }

  predicate StartsEntity(t: string) {
    "&amp;" <= t || "&lt;" <= t || "&gt;" <= t || "&quot;" <= t || "&#39;" <= t
  }

  lemma DecodeEntity(c: char, rest: string)
    ensures Decode(Entity(c) + rest) == [c] + Decode(rest)
  {
    var t := Entity(c) + rest;
    assert t[|Entity(c)|..] == rest;
    assert t[0] == Entity(c)[0];
    assert |Entity(c)| > 1 ==> t[1] == Entity(c)[1];
    assert c == '&' ==> "&amp;" <= t;
    assert c == '<' ==> "&lt;" <= t;
    assert c == '>' ==> "&gt;" <= t;
    assert c == '"' ==> "&quot;" <= t;
    assert c == '\'' ==> "&#39;" <= t;
  }

  /** Decoding undoes escaping, for every string. */
  lemma {:induction false} DecodeEscape(s: string)
    ensures Decode(Escape(s)) == s
  {
    if s != [] {
      DecodeEscape(s[1..]);
      DecodeEntity(s[0], Escape(s[1..]));
    }
  }

  lemma EntityShape(c: char, rest: string)
    ensures forall x | x in Entity(c) :: x !in {'<', '>', '"', '\''}
    ensures forall i | 0 < i < |Entity(c)| :: Entity(c)[i] != '&'
    ensures Entity(c)[0] == '&' ==> StartsEntity(Entity(c) + rest)
  {
  }

  /** The output holds no character that opens a tag or ends an attribute, and every `&` begins an entity. */
  lemma {:induction false} EscapedIsInert(s: string)
    ensures forall c | c in Escape(s) :: c !in {'<', '>', '"', '\''}
    ensures forall i | 0 <= i < |Escape(s)| && Escape(s)[i] == '&' :: StartsEntity(Escape(s)[i..])
  {
    if s != [] {
      hide Entity, StartsEntity;
      var head, tail := Entity(s[0]), Escape(s[1..]);
      var t := Escape(s);
      assert t == head + tail;
      EscapedIsInert(s[1..]);
      EntityShape(s[0], tail);
      hide Escape;
      forall i | 0 <= i < |t| && t[i] == '&'
        ensures StartsEntity(t[i..])
      {
        if i < |head| {
          assert t[i..] == head + tail;
        } else {
          assert t[i..] == tail[i - |head|..];
        }
      }
    }
  }

  /** Different texts never look the same once escaped. */
  lemma EscapeIsInjective(a: string, b: string)
    requires Escape(a) == Escape(b)
    ensures a == b
  {
    DecodeEscape(a);
    DecodeEscape(b);
  }
}
