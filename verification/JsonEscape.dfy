/** Escaping of secret values into JSON string literals, against the string grammar of section 7 of RFC 8259. */
module JsonEscape {
  import opened Basics

  // ----- The code: five replacements in sequence -----

  /** `strings.ReplaceAll` for a one-character pattern. */
  function ReplaceAll(s: string, c: char, sub: string): string {
    if s == [] then [] else (if s[0] == c then sub else [s[0]]) + ReplaceAll(s[1..], c, sub)
  }

  function EscapeJSON(s: string): string {
    var s1 := ReplaceAll(s, '\\', "\\\\");
    var s2 := ReplaceAll(s1, '"', "\\\"");
    var s3 := ReplaceAll(s2, '\n', "\\n");
    var s4 := ReplaceAll(s3, '\r', "\\r");
    ReplaceAll(s4, '\t', "\\t")
  }

  // ----- One simultaneous map -----

  function EscapeChar(c: char): string {
    if c == '\\' then "\\\\"
    else if c == '"' then "\\\""
    else if c == '\n' then "\\n"
    else if c == '\r' then "\\r"
    else if c == '\t' then "\\t"
    else [c]
  }

  function EscapeEach(s: string): string {
    if s == [] then [] else EscapeChar(s[0]) + EscapeEach(s[1..])
  }

  lemma {:induction false} ReplaceAllConcat(s: string, t: string, c: char, sub: string)
    ensures ReplaceAll(s + t, c, sub) == ReplaceAll(s, c, sub) + ReplaceAll(t, c, sub)
  {
    if s == [] {
      assert s + t == t;
    } else {
      ReplaceAllConcat(s[1..], t, c, sub);
      assert (s + t)[1..] == s[1..] + t;
      Associative(if s[0] == c then sub else [s[0]], ReplaceAll(s[1..], c, sub), ReplaceAll(t, c, sub));
    }
  }

  lemma EscapeConcat(s: string, t: string)
    ensures EscapeJSON(s + t) == EscapeJSON(s) + EscapeJSON(t)
  {
    ReplaceAllConcat(s, t, '\\', "\\\\");
    var s1, t1 := ReplaceAll(s, '\\', "\\\\"), ReplaceAll(t, '\\', "\\\\");
    ReplaceAllConcat(s1, t1, '"', "\\\"");
    var s2, t2 := ReplaceAll(s1, '"', "\\\""), ReplaceAll(t1, '"', "\\\"");
    ReplaceAllConcat(s2, t2, '\n', "\\n");
    var s3, t3 := ReplaceAll(s2, '\n', "\\n"), ReplaceAll(t2, '\n', "\\n");
    ReplaceAllConcat(s3, t3, '\r', "\\r");
    var s4, t4 := ReplaceAll(s3, '\r', "\\r"), ReplaceAll(t3, '\r', "\\r");
    ReplaceAllConcat(s4, t4, '\t', "\\t");
  }

  lemma ReplaceOne(a: char, c: char, sub: string)
    ensures ReplaceAll([a], c, sub) == if a == c then sub else [a]
  {
    assert [a][1..] == [];
  }

  lemma ReplaceTwo(a: char, b: char, c: char, sub: string)
    requires a != c && b != c
    ensures ReplaceAll([a, b], c, sub) == [a, b]
  {
    assert [a, b][1..] == [b];
    ReplaceOne(b, c, sub);
  }

  /** A replacement's output holds no character that a later replacement looks for, so on one character
      the sequence acts as the map. */
  lemma EscapeOne(c: char)
    ensures EscapeJSON([c]) == EscapeChar(c)
  {
    ReplaceOne(c, '\\', "\\\\");
    ReplaceOne(c, '"', "\\\"");
    ReplaceOne(c, '\n', "\\n");
    ReplaceOne(c, '\r', "\\r");
    ReplaceOne(c, '\t', "\\t");
    forall b, d: char, sub: string | b in ['\\', '"', 'n', 'r'] && d in ['"', '\n', '\r', '\t'] && b != d
      ensures ReplaceAll(['\\', b], d, sub) == ['\\', b]
    {
      ReplaceTwo('\\', b, d, sub);
    }
  }

  /** The five sequential replacements equal one simultaneous per-character map. */
  lemma {:induction false} SequentialIsSimultaneous(s: string)
    ensures EscapeJSON(s) == EscapeEach(s)
  {
    if s != [] {
      assert s == [s[0]] + s[1..];
      EscapeConcat([s[0]], s[1..]);
      EscapeOne(s[0]);
      SequentialIsSimultaneous(s[1..]);
    }
  }

  // ----- Unescaping -----

  function HexDigit(c: char): Option<nat> {
    if '0' <= c <= '9' then Some(c as int - '0' as int)
    else if 'a' <= c <= 'f' then Some(c as int - 'a' as int + 10)
    else if 'A' <= c <= 'F' then Some(c as int - 'A' as int + 10)
    else None
  }

  /** The four hexadecimal digits at the start of `s`. */
  function Hex4(s: string): Option<nat> {
    if |s| < 4 then None
    else
      match (HexDigit(s[0]), HexDigit(s[1]), HexDigit(s[2]), HexDigit(s[3]))
      case (Some(a), Some(b), Some(c), Some(d)) => Some(4096 * a + 256 * b + 16 * c + d)
      case _ => None
  }

  /** The character that a two-character escape stands for. */
  function ShortEscape(c: char): Option<char> {
    match c
    case '"' => Some('"')
    case '\\' => Some('\\')
    case '/' => Some('/')
    case 'b' => Some(0x8 as char)
    case 'f' => Some(0xc as char)
    case 'n' => Some('\n')
    case 'r' => Some('\r')
    case 't' => Some('\t')
    case _ => None
  }

  /** One character of a JSON string body and how many source characters spell it. */
  function Next(s: string): (r: Option<(char, nat)>)
    requires s != []
    ensures r.Some? ==> 0 < r.value.1 <= |s|
  {
    if s[0] == '"' || s[0] < ' ' then None
    else if s[0] != '\\' then Some((s[0], 1))
    else if |s| == 1 then None
    else if s[1] != 'u' then
      match ShortEscape(s[1])
      case None => None
      case Some(c) => Some((c, 2))
    else
      match Hex4(s[2..])
      case None => None
      case Some(h) =>
        if h < 0xd800 || 0xe000 <= h < 0x1_0000 then Some((h as char, 6))
        else if 0xdc00 <= h || |s| < 12 || s[6] != '\\' || s[7] != 'u' then None
        else
          match Hex4(s[8..])
          case None => None
          case Some(l) =>
            if 0xdc00 <= l < 0xe000 then Some(((0x1_0000 + (h - 0xd800) * 0x400 + (l - 0xdc00)) as char, 12)) else None
  }

  /** The string that a JSON string body denotes, if it is well formed. */
  function Unescape(s: string): Option<string> {
    if s == [] then Some([])
    else
      match Next(s)
      case None => None
      case Some((c, n)) =>
        match Unescape(s[n..])
        case None => None
        case Some(t) => Some([c] + t)
  }

  /** A control character that `EscapeJSON` leaves bare. */
  predicate Unhandled(c: char) {
    c < ' ' && c != '\n' && c != '\r' && c != '\t'
  }

  lemma UnescapeFirst(c: char, t: string)
    ensures Unescape(EscapeChar(c) + t) ==
      if Unhandled(c) then None else match Unescape(t) case None => None case Some(u) => Some([c] + u)
  {
    NextFirst(c, t);
    assert (EscapeChar(c) + t)[|EscapeChar(c)|..] == t;
  }

  lemma NextFirst(c: char, t: string)
    ensures Next(EscapeChar(c) + t) == if Unhandled(c) then None else Some((c, |EscapeChar(c)|))
  {
  }

  /** Unescaping gives the original back exactly for the strings whose only control characters below U+0020
      are newline, carriage return and tab; with any other the result is not a JSON string at all. */
  lemma {:induction false} RoundTripIffHandled(s: string)
    ensures Unescape(EscapeJSON(s)) == if forall c :: c in s ==> !Unhandled(c) then Some(s) else None
  {
    SequentialIsSimultaneous(s);
    if s != [] {
      RoundTripIffHandled(s[1..]);
      SequentialIsSimultaneous(s[1..]);
      UnescapeFirst(s[0], EscapeEach(s[1..]));
      assert s == [s[0]] + s[1..];
    }
  }

  /** A backspace, for one, passes through bare. */
  lemma BackspaceBreaks()
    ensures Unescape(EscapeJSON([0x8 as char])) == None
  {
    var c := 0x8 as char;
    assert c in [c] && Unhandled(c);
    RoundTripIffHandled([c]);
  }
}
