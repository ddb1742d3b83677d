/** The unpadded URL-safe base64 of section 5 of RFC 4648, as Go's RawURLEncoding prints and reads it. */
module Base64 {
  import opened Wrappers

  /** A Go string: any bytes. */
  type ByteString = s: string | forall i | 0 <= i < |s| :: s[i] as int < 256 witness []

  type Sextet = n: nat | n < 64

  function ValueOf(c: char): Option<Sextet> {
    if 'A' <= c <= 'Z' then Some(c as int - 'A' as int)
    else if 'a' <= c <= 'z' then Some(c as int - 'a' as int + 26)
    else if '0' <= c <= '9' then Some(c as int - '0' as int + 52)
    else if c == '-' then Some(62)
    else if c == '_' then Some(63)
    else None
  }

  function Symbol(v: Sextet): (c: char)
    ensures ValueOf(c) == Some(v) && c != '\n' && c != '\r'
  {
    if v < 26 then ('A' as int + v) as char
    else if v < 52 then ('a' as int + (v - 26)) as char
    else if v < 62 then ('0' as int + (v - 52)) as char
    else if v == 62 then '-' else '_'
  }

  function Ungroup(v: Sextet, w: Sextet, x: Sextet, y: Sextet): (bytes: (nat, nat, nat))
    ensures bytes.0 < 256 && bytes.1 < 256 && bytes.2 < 256
  {
    (v * 4 + w / 16, w % 16 * 16 + x / 4, x % 4 * 64 + y)
  }

  /** The four sextets of three bytes. */
  function Group(a: nat, b: nat, c: nat): (vs: (Sextet, Sextet, Sextet, Sextet))
    requires a < 256 && b < 256 && c < 256
    ensures Ungroup(vs.0, vs.1, vs.2, vs.3) == (a, b, c)
  {
    var high, low := b / 16, c / 64;
    assert (a % 4 * 16 + high) / 16 == a % 4 && (a % 4 * 16 + high) % 16 == high;
    assert (b % 16 * 4 + low) / 4 == b % 16 && (b % 16 * 4 + low) % 4 == low;
    (a / 4, a % 4 * 16 + high, b % 16 * 4 + low, c % 64)
  }

  /** Three bytes make four sextets; one or two left over make two or three, padded with zero bits. */
  function Split(s: ByteString): (vs: seq<Sextet>) {
    if s == [] then []
    else
      var group := Group(s[0] as int, if |s| > 1 then s[1] as int else 0, if |s| > 2 then s[2] as int else 0);
      if |s| == 1 then [group.0, group.1]
      else if |s| == 2 then [group.0, group.1, group.2]
      else [group.0, group.1, group.2, group.3] + Split(s[3..])
  }

  /** The reverse. Padding bits are ignored, a single sextet left over is an error. */
  function Join(vs: seq<Sextet>): (s: Option<ByteString>) {
    if vs == [] then Some([])
    else if |vs| == 1 then None
    else
      var bytes := Ungroup(vs[0], vs[1], if |vs| > 2 then vs[2] else 0, if |vs| > 3 then vs[3] else 0);
      if |vs| == 2 then Some([bytes.0 as char])
      else if |vs| == 3 then Some([bytes.0 as char, bytes.1 as char])
      else
        match Join(vs[4..])
        case None => None
        case Some(rest) => Some([bytes.0 as char, bytes.1 as char, bytes.2 as char] + rest)
  }

  function Print(vs: seq<Sextet>): string {
    if vs == [] then [] else [Symbol(vs[0])] + Print(vs[1..])
  }

  /** Line breaks are skipped; any other character outside the alphabet is an error. */
  function Read(text: string): Option<seq<Sextet>> {
    if text == [] then Some([])
    else if text[0] == '\n' || text[0] == '\r' then Read(text[1..])
    else
      match (ValueOf(text[0]), Read(text[1..]))
      case (Some(v), Some(vs)) => Some([v] + vs)
      case _ => None
  }

  /** EncodeToString. */
  function Encode(s: ByteString): string {
    Print(Split(s))
  }

  /** DecodeString. */
  function Decode(text: string): Option<ByteString> {
    match Read(text)
    case Some(vs) => Join(vs)
    case None => None
  }

  /** The alphabet of table 2 in section 5 of RFC 4648: two runs of letters, one of digits, and two more signs. */
  lemma SymbolsAreAlphabet(v: Sextet)
    ensures Symbol(0) == 'A' && Symbol(25) == 'Z' && Symbol(26) == 'a' && Symbol(51) == 'z'
    ensures Symbol(52) == '0' && Symbol(61) == '9' && Symbol(62) == '-' && Symbol(63) == '_'
    ensures v < 62 && v !in {25, 51, 61} ==> Symbol(v + 1) as int == Symbol(v) as int + 1
  {}

  /** Four sextets are the digits to the base 64 of the number that three bytes are to the base 256. */
  lemma GroupIsNumber(a: nat, b: nat, c: nat)
    requires a < 256 && b < 256 && c < 256
    ensures var vs := Group(a, b, c); ((vs.0 * 64 + vs.1) * 64 + vs.2) * 64 + vs.3 == (a * 256 + b) * 256 + c
  {}

  lemma ReadSymbol(v: Sextet, text: string)
    requires Read(text).Some?
    ensures Read([Symbol(v)] + text) == Some([v] + Read(text).value)
  {
    assert ([Symbol(v)] + text)[1..] == text;
  }

  lemma {:induction false} ReadPrint(vs: seq<Sextet>)
    ensures Read(Print(vs)) == Some(vs)
  {
    if vs == [] {
    } else {
      ReadPrint(vs[1..]);
      ReadSymbol(vs[0], Print(vs[1..]));
      assert vs == [vs[0]] + vs[1..];
    }
  }

  /** The first bytes of a group need only its first sextets. */
  lemma Leftover(v: Sextet, w: Sextet, x: Sextet, y: Sextet)
    ensures Ungroup(v, w, 0, 0).0 == Ungroup(v, w, x, y).0
    ensures Ungroup(v, w, x, 0).0 == Ungroup(v, w, x, y).0
    ensures Ungroup(v, w, x, 0).1 == Ungroup(v, w, x, y).1
  {}

  lemma {:induction false} JoinSplit(s: ByteString)
    ensures Join(Split(s)) == Some(s)
  {
    if s == [] {
    } else {
      var group := Group(s[0] as int, if |s| > 1 then s[1] as int else 0, if |s| > 2 then s[2] as int else 0);
      Leftover(group.0, group.1, group.2, group.3);
      if |s| == 1 {
        assert s == [s[0]];
      } else if |s| == 2 {
        assert s == [s[0], s[1]];
      } else {
        JoinSplit(s[3..]);
        assert Split(s)[4..] == Split(s[3..]);
        assert s == [s[0], s[1], s[2]] + s[3..];
      }
    }
  }

  /** Decoding undoes encoding, for every string of bytes. */
  lemma DecodeEncode(s: ByteString)
    ensures Decode(Encode(s)) == Some(s)
  {
    ReadPrint(Split(s));
    JoinSplit(s);
  }

  // ---------- what is read at all ----------

  predicate IsBreak(c: char) {
    c == '\n' || c == '\r'
  }

  function WithoutBreaks(text: string): string {
    if text == [] then []
    else (if IsBreak(text[0]) then [] else [text[0]]) + WithoutBreaks(text[1..])
  }

  ghost predicate IsSymbol(c: char) {
    exists v: Sextet :: Symbol(v) == c
  }

  lemma ValueOfSymbol(c: char)
    ensures ValueOf(c).Some? <==> IsSymbol(c)
    ensures ValueOf(c).Some? ==> !IsBreak(c)
  {
    if ValueOf(c).Some? {
      assert Symbol(ValueOf(c).value) == c;
    }
  }

  lemma {:induction false} ReadAccepts(text: string)
    ensures Read(text).Some? <==> forall i | 0 <= i < |text| :: IsBreak(text[i]) || IsSymbol(text[i])
    ensures Read(text).Some? ==> |Read(text).value| == |WithoutBreaks(text)|
  {
    if text == [] {
    } else {
      ReadAccepts(text[1..]);
      ValueOfSymbol(text[0]);
      assert forall i | 0 < i < |text| :: text[i] == text[1..][i - 1];
    }
  }

  lemma JoinFew(vs: seq<Sextet>)
    requires |vs| < 4
    ensures Join(vs).Some? <==> |vs| != 1
  {}

  lemma JoinByFours(vs: seq<Sextet>)
    requires |vs| >= 4
    ensures Join(vs).Some? <==> Join(vs[4..]).Some?
  {}

  lemma FourFewer(n: nat)
    requires n >= 4
    ensures n % 4 == (n - 4) % 4
  {}

  lemma {:induction false} JoinAccepts(vs: seq<Sextet>)
    ensures Join(vs).Some? <==> |vs| % 4 != 1
  {
    if |vs| < 4 {
      JoinFew(vs);
    } else {
      JoinByFours(vs);
      FourFewer(|vs|);
      JoinAccepts(vs[4..]);
    }
  }

  /** A text is read exactly if all its characters are of the alphabet or line breaks, and the former do not leave
      a single one over when taken by fours. */
  lemma DecodeAccepts(text: string)
    ensures Decode(text).Some? <==>
              && (forall i | 0 <= i < |text| :: IsBreak(text[i]) || IsSymbol(text[i]))
              && |WithoutBreaks(text)| % 4 != 1
  {
    ReadAccepts(text);
    if Read(text).Some? {
      JoinAccepts(Read(text).value);
    }
  }
}
