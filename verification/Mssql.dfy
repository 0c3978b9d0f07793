/** The TDS error reply and the decoder of LOGIN7 credentials. */
module Mssql {
  import opened Prelude

  // ---------- UTF-16 ----------

  predicate Bmp(s: seq<CodePoint>) { forall i :: 0 <= i < |s| ==> s[i] < 0x1_0000 }

  /** A code point beyond the BMP takes two code units. */
  function Units(s: seq<CodePoint>): (r: seq<CodeUnit>)
    ensures |s| <= |r| <= 2 * |s|
  {
    if s == [] then []
    else if s[0] < 0x1_0000 then [s[0]] + Units(s[1..])
    else [0xD800 + (s[0] - 0x1_0000) / 0x400, 0xDC00 + (s[0] - 0x1_0000) % 0x400] + Units(s[1..])
  }

  /** `s.encode("utf-16-le")` */
  function Utf16Le(s: seq<CodePoint>): bytes { UnitBytes(Units(s)) }

  /** Beyond the BMP, the two surrogates hold the code point less 0x10000. */
  lemma SurrogatesOf(c: CodePoint)
    requires c >= 0x1_0000
    ensures var u := Units([c]);
      |u| == 2 && 0xD800 <= u[0] < 0xDC00 && 0xDC00 <= u[1] < 0xE000
      && 0x1_0000 + 0x400 * (u[0] - 0xD800) as int + (u[1] - 0xDC00) as int == c
  {
    assert [c][1..] == [];
  }

  lemma {:induction false} BmpUnits(s: seq<CodePoint>)
    ensures Bmp(s) ==> Units(s) == s
    ensures Bmp(s) <==> |Units(s)| == |s|
  {
    if s != [] {
      BmpUnits(s[1..]);
      assert Bmp(s) <==> s[0] < 0x1_0000 && Bmp(s[1..]);
    }
  }

  // ---------- Hexadecimal text ----------

  type Nibble = n: int | 0 <= n < 16

  function HexByte(b: byte): (r: seq<Nibble>)
    ensures |r| == 2
  {
    [b / 16, b % 16]
  }

  function Hexlify(s: bytes): (r: seq<Nibble>)
    ensures |r| == 2 * |s|
  {
    if s == [] then [] else HexByte(s[0]) + Hexlify(s[1..])
  }

  function Unhexlify(h: seq<Nibble>): bytes {
    if |h| < 2 then [] else [16 * (h[0] as int) + h[1]] + Unhexlify(h[2..])
  }

  lemma UnhexNothing()
    ensures Unhexlify([]) == []
  {
  }

  lemma UnhexPair(b: byte, h: seq<Nibble>)
    ensures Unhexlify(HexByte(b) + h) == [b] + Unhexlify(h)
  {
    assert (HexByte(b) + h)[2..] == h;
  }

  lemma {:induction false} UnhexOfHex(s: bytes)
    ensures Unhexlify(Hexlify(s)) == s
    decreases |s|
  {
    hide HexByte, Unhexlify;
    UnhexNothing();
    if s != [] {
      UnhexOfHex(s[1..]);
      UnhexPair(s[0], Hexlify(s[1..]));
    }
  }

  lemma {:induction false} HexAppend(a: bytes, b: bytes)
    ensures Hexlify(a + b) == Hexlify(a) + Hexlify(b)
    decreases |a|
  {
    hide HexByte;
    if a == [] {
      assert a + b == b;
    } else {
      HexAppend(a[1..], b);
      assert (a + b)[1..] == a[1..] + b;
    }
  }

  // ---------- create_payload ----------

  const DEFAULT_NAME: seq<Septet> := Ascii("R&Dbackup")
  const DEFAULT_MESSAGE: seq<Septet> := Ascii("An error has occurred while establishing a connection to the server.")

  /** The literals of the packet; the source spells them out in hexadecimal digits. */
  const HEAD: bytes := [0x04, 0x01, 0x00, 0x76, 0x00, 0x35, 0x01, 0x00, 0xAA]
  const STATE_CLASS: bytes := [0x01, 0x0E]
  const NO_PROCEDURE: bytes := [0x00, 0x01, 0x00, 0x00, 0x00]
  const DONE: bytes := [0xFD, 0x02, 0x00, 0x00, 0x00, 0x00, 0x00, 0x00, 0x00, 0x00, 0x00, 0x00, 0x00]

  /** Every field fits its struct format: signed byte, two unsigned shorts and an unsigned int. */
  predicate FieldsFit(name: seq<CodePoint>, message: seq<CodePoint>, code: int) {
    |name| < 128 && |message| < 0x1_0000 && 0 <= code < 0x1_0000_0000 && Encodable(name) && Encodable(message)
  }

  function ErrorToken(name: seq<CodePoint>, message: seq<CodePoint>, code: int): (r: seq<Nibble>)
    requires FieldsFit(name, message, code)
  {
    Hexlify(Le32(code)) + Hexlify(STATE_CLASS) + Hexlify(Le16(|message|)) + Hexlify(Utf16Le(message))
    + Hexlify([|name|]) + Hexlify(Utf16Le(name)) + Hexlify(NO_PROCEDURE)
  }

  /** `unhexlify(stream[0:4] + length + stream[8:])`: the length overwrites the third and fourth byte. */
  function Splice(stream: seq<Nibble>, length: bytes): bytes
    requires |stream| >= 8
  {
    Unhexlify(stream[..4] + Hexlify(length) + stream[8..])
  }

  /** The packet around an ERROR token, with a placeholder for its length; None when the token is too long. */
  function Stream(head: bytes, token: seq<Nibble>, done: bytes): Option<seq<Nibble>> {
    var n := |Unhexlify(token)|;
    if n >= 0x1_0000 then None else Some(Hexlify(head) + Hexlify(Le16(n)) + token + Hexlify(done))
  }

  /** Puts the length in place; None when the packet is too long. */
  function Finish(stream: seq<Nibble>): Option<bytes>
    requires |stream| >= 8
  {
    var n := |Unhexlify(stream)|;
    if n >= 0x1_0000 then None else Some(Splice(stream, Be16(n)))
  }

  /** `create_payload` after its defaults; None when a suppressed exception leaves no result. */
  function Build(name: seq<CodePoint>, message: seq<CodePoint>, code: int): Option<bytes> {
    if !FieldsFit(name, message, code) then None
    else
      match Stream(HEAD, ErrorToken(name, message, code), DONE)
      case None => None
      case Some(stream) => Finish(stream)
  }

  function OrDefault(s: seq<CodePoint>, default: seq<CodePoint>): seq<CodePoint> { if s == [] then default else s }

  /** An empty name or message stands for the default one. */
  function CreatePayload(serverName: seq<CodePoint>, errorMessage: seq<CodePoint>, code: int): Option<bytes> {
    Build(OrDefault(serverName, DEFAULT_NAME), OrDefault(errorMessage, DEFAULT_MESSAGE), code)
  }

  // ---------- An independent parser of [MS-TDS] ----------

  /** The parts of a packet that carry the error: sections 2.2.3.1, 2.2.7.10 and 2.2.7.6 of [MS-TDS]. */
  datatype Report = Report(code: nat, message: seq<CodeUnit>, server: seq<CodeUnit>)

  function TakeUnits(s: bytes, n: nat): (r: seq<CodeUnit>)
    requires 2 * n <= |s|
    ensures |r| == n
  {
    if n == 0 then [] else [FromLe16(s[..2])] + TakeUnits(s[2..], n - 1)
  }

  /** The ERROR token body: number, state, class, message, server name, procedure name and line, and nothing more. */
  function ParseBody(s: bytes): (r: Option<Report>)
    ensures r.Some? ==> |s| >= 8 && |r.value.message| == FromLe16(s[6..8])
    ensures r.Some? ==> var at := 8 + 2 * FromLe16(s[6..8]); at < |s| && |r.value.server| == s[at]
  {
    if |s| < 8 then None
    else
      var n := FromLe16(s[6..8]);
      if |s| < 9 + 2 * n then None
      else
        var rest := s[9 + 2 * n..];
        var m: nat := s[8 + 2 * n];
        if |rest| < 2 * m + 1 then None
        else
          var procedure: nat := rest[2 * m];
          if |rest| != 2 * m + 1 + 2 * procedure + 4 then None
          else Some(Report(FromLe32(s[..4]), TakeUnits(s[8..], n), TakeUnits(rest, m)))
  }

  /** One packet that is the last of its message: header, ERROR token, DONE token, each as long as it says. */
  function ParsePacket(s: bytes): Option<Report> {
    if |s| < 11 || s[0] != 0x04 || s[1] != 0x01 || FromBe16(s[2..4]) != |s| || s[8] != 0xAA then None
    else
      var n := FromLe16(s[9..11]);
      if |s| != 11 + n + 13 || s[11 + n] != 0xFD then None
      else ParseBody(s[11..11 + n])
  }

  // ---------- The reply is well formed ----------

  lemma HexSplice(s: bytes, length: bytes)
    requires |s| >= 4
    ensures Splice(Hexlify(s), length) == s[..2] + length + s[4..]
  {
    hide Unhexlify, Hexlify;
    assert s == s[..2] + s[2..] == s[..4] + s[4..];
    HexAppend(s[..2], s[2..]);
    HexAppend(s[..4], s[4..]);
    assert Hexlify(s)[..4] == Hexlify(s[..2]);
    assert Hexlify(s)[8..] == Hexlify(s[4..]);
    HexAppend(s[..2], length);
    HexAppend(s[..2] + length, s[4..]);
    var all := s[..2] + length + s[4..];
    UnhexOfHex(all);
  }

  /** The bytes of the ERROR token after its length. */
  function Token(name: seq<CodePoint>, message: seq<CodePoint>, code: int): (r: bytes)
    requires FieldsFit(name, message, code)
    ensures |r| == 14 + 2 * |Units(message)| + 2 * |Units(name)|
  {
    Le32(code) + STATE_CLASS + Le16(|message|) + Utf16Le(message) + [|name|] + Utf16Le(name) + NO_PROCEDURE
  }

  lemma TokenIsHex(name: seq<CodePoint>, message: seq<CodePoint>, code: int)
    requires FieldsFit(name, message, code)
    ensures ErrorToken(name, message, code) == Hexlify(Token(name, message, code))
  {
    hide Hexlify, Utf16Le, Le32, Le16;
    var a, b, c, d, e, f: bytes := Le32(code), STATE_CLASS, Le16(|message|), Utf16Le(message), [|name|], Utf16Le(name);
    HexAppend(a, b);
    HexAppend(a + b, c);
    HexAppend(a + b + c, d);
    HexAppend(a + b + c + d, e);
    HexAppend(a + b + c + d + e, f);
    HexAppend(a + b + c + d + e + f, NO_PROCEDURE);
  }

  /** The bytes of the reply, with the header length in place. */
  function Packet(token: bytes): (r: bytes)
    requires |token| + 24 < 0x1_0000
    ensures |r| == |token| + 24
  {
    [0x04, 0x01] + Be16(|token| + 24) + [0x00, 0x35, 0x01, 0x00, 0xAA] + Le16(|token|) + token + DONE
  }

  /** The token and the packet, byte by byte: state, class, procedure, line and the DONE token are fixed. */
  lemma TokenIs(name: Text, message: Text, code: int)
    requires FieldsFit(name, message, code)
    ensures Token(name, message, code)
         == Le32(code) + [0x01, 0x0E] + Le16(|message|) + UnitBytes(Units(message))
            + [|name|] + UnitBytes(Units(name)) + [0x00, 0x01, 0x00, 0x00, 0x00]
  {
    hide Le16, Le32, Units, UnitBytes, Encodable;
  }

  lemma PacketIs(token: bytes)
    requires |token| + 24 < 0x1_0000
    ensures Packet(token)
         == [0x04, 0x01] + Be16(|token| + 24) + [0x00, 0x35, 0x01, 0x00, 0xAA] + Le16(|token|) + token
            + [0xFD, 0x02, 0x00, 0x00, 0x00, 0x00, 0x00, 0x00, 0x00, 0x00, 0x00, 0x00, 0x00]
  {
    hide Le16, Be16;
  }

  /** The reply exists exactly when its fields and lengths fit, and is the packet whose lengths are true. */
  lemma ReplyIsPacket(name: seq<CodePoint>, message: seq<CodePoint>, code: int)
    ensures Build(name, message, code)
      == (if FieldsFit(name, message, code) && |Token(name, message, code)| + 24 < 0x1_0000
          then Some(Packet(Token(name, message, code))) else None)
  {
    hide Stream, Finish, Token, Packet, ErrorToken, Encodable;
    if FieldsFit(name, message, code) {
      TokenIsHex(name, message, code);
      var token := Token(name, message, code);
      StreamIsHex(HEAD, token, DONE);
      if |token| < 0x1_0000 {
        FinishedIsSpliced(HEAD + Le16(|token|) + token + DONE);
        if |token| + 24 < 0x1_0000 { PacketIsSpliced(token); }
      }
    }
  }

  lemma HexOfFour(a: bytes, b: bytes, c: bytes, d: bytes)
    ensures Hexlify(a) + Hexlify(b) + Hexlify(c) + Hexlify(d) == Hexlify(a + b + c + d)
  {
    hide Hexlify;
    HexAppend(a, b);
    HexAppend(a + b, c);
    HexAppend(a + b + c, d);
  }

  lemma StreamIsHex(head: bytes, token: bytes, done: bytes)
    ensures Stream(head, Hexlify(token), done)
         == if |token| < 0x1_0000 then Some(Hexlify(head + Le16(|token|) + token + done)) else None
  {
    hide Hexlify, Unhexlify, Le16;
    UnhexOfHex(token);
    if |token| < 0x1_0000 { HexOfFour(head, Le16(|token|), token, done); }
  }

  lemma FinishedIsSpliced(s: bytes)
    requires |s| >= 4
    ensures Finish(Hexlify(s)) == if |s| < 0x1_0000 then Some(s[..2] + Be16(|s|) + s[4..]) else None
  {
    hide Hexlify, Unhexlify, Splice, Be16;
    UnhexOfHex(s);
    if |s| < 0x1_0000 { HexSplice(s, Be16(|s|)); }
  }

  lemma PacketIsSpliced(token: bytes)
    requires |token| + 24 < 0x1_0000
    ensures var stream := HEAD + Le16(|token|) + token + DONE;
      stream[..2] + Be16(|token| + 24) + stream[4..] == Packet(token)
  {
    hide Le16, Be16;
    var rest := Le16(|token|) + token + DONE;
    var stream := HEAD + Le16(|token|) + token + DONE;
    assert stream == HEAD + rest;
    assert stream[..2] == [0x04, 0x01] && stream[4..] == HEAD[4..] + rest;
    assert HEAD[4..] == [0x00, 0x35, 0x01, 0x00, 0xAA];
  }

  lemma TakeOneUnit(u: CodeUnit, rest: bytes, n: nat)
    requires 2 * n <= |rest|
    ensures TakeUnits(Le16(u) + rest, n + 1) == [u] + TakeUnits(rest, n)
  {
    Read16(u);
    hide Le16, FromLe16;
    var s := Le16(u) + rest;
    assert s[..2] == Le16(u) && s[2..] == rest;
  }

  lemma {:induction false} TakeUnitsOfBytes(units: seq<CodeUnit>, rest: bytes)
    ensures TakeUnits(UnitBytes(units) + rest, |units|) == units
  {
    hide Le16, TakeUnits;
    if units == [] {
      assert TakeUnits(UnitBytes(units) + rest, 0) == [];
    } else {
      TakeUnitsOfBytes(units[1..], rest);
      TakeOneUnit(units[0], UnitBytes(units[1..]) + rest, |units| - 1);
      assert UnitBytes(units) + rest == Le16(units[0]) + (UnitBytes(units[1..]) + rest);
    }
  }

  /** The parser reads a token back when no string has a code point beyond the BMP. */
  lemma TokenParses(name: seq<CodePoint>, message: seq<CodePoint>, code: int)
    requires FieldsFit(name, message, code) && Bmp(name) && Bmp(message)
    ensures ParseBody(Token(name, message, code)) == Some(Report(code, message, name))
  {
    hide UnitBytes, Units, Encodable, TakeUnits;
    BmpUnits(name);
    BmpUnits(message);
    var s := Token(name, message, code);
    Read16(|message|);
    Read32(code);
    var u, v := UnitBytes(message), UnitBytes(name);
    assert s[..4] == Le32(code);
    assert s[6..8] == Le16(|message|);
    assert s[8..] == u + ([|name|] + v + NO_PROCEDURE);
    assert s[8 + |u|] == |name|;
    assert s[9 + |u|..] == v + NO_PROCEDURE;
    TakeUnitsOfBytes(message, [|name|] + v + NO_PROCEDURE);
    TakeUnitsOfBytes(name, NO_PROCEDURE);
  }

  lemma PacketParses(token: bytes)
    requires |token| + 24 < 0x1_0000
    ensures ParsePacket(Packet(token)) == ParseBody(token)
  {
    hide ParseBody;
    var s := Packet(token);
    Read16(|token|);
    Read16(|token| + 24);
    assert s[2..4] == Be16(|token| + 24);
    assert s[9..11] == Le16(|token|);
    assert s[11..11 + |token|] == token;
    assert s[11 + |token|] == 0xFD;
  }

  /**
    * Whenever a reply is made, a parser of [MS-TDS] accepts it and recovers the error number, message and
    * server name if and only if both strings stay within the BMP: the counts are of code points, not of units.
    */
  lemma ReplyParses(name: seq<CodePoint>, message: seq<CodePoint>, code: int)
    requires Build(name, message, code).Some?
    ensures ParsePacket(Build(name, message, code).value) == Some(Report(code, Units(message), Units(name)))
      <==> Bmp(name) && Bmp(message)
  {
    hide Build, Packet, ParsePacket, ParseBody, Encodable, Units;
    ReplyIsPacket(name, message, code);
    var token := Token(name, message, code);
    PacketParses(token);
    BmpUnits(name);
    BmpUnits(message);
    if Bmp(name) && Bmp(message) {
      TokenParses(name, message, code);
    } else if ParseBody(token).Some? {
      TokenCounts(name, message, code);
    }
  }

  /** The counts a parser finds are those of code points. */
  lemma TokenCounts(name: seq<CodePoint>, message: seq<CodePoint>, code: int)
    requires FieldsFit(name, message, code) && ParseBody(Token(name, message, code)).Some?
    ensures var r := ParseBody(Token(name, message, code)).value;
      |r.message| == |message| && (Bmp(message) ==> |r.server| == |name|)
  {
    hide ParseBody, UnitBytes, Units, Encodable;
    var s := Token(name, message, code);
    Read16(|message|);
    assert s[6..8] == Le16(|message|);
    BmpUnits(message);
    if Bmp(message) { assert s[8 + 2 * |message|] == |name|; }
  }

  lemma AsciiFits(s: seq<Septet>)
    ensures Encodable(s) && Bmp(s)
  {
  }

  lemma DefaultsFit()
    ensures |DEFAULT_NAME| < 128 && |DEFAULT_MESSAGE| < 0x7000
  {
  }

  /** The caller's strings are sent, and the defaults stand in for empty ones; the reply is read back. */
  lemma DefaultsAreFilled(serverName: Text, errorMessage: Text, code: int)
    requires |serverName| < 128 && |errorMessage| < 0x7000 && 0 <= code < 0x1_0000_0000
    requires Encodable(serverName) && Encodable(errorMessage) && Bmp(serverName) && Bmp(errorMessage)
    ensures var reply := CreatePayload(serverName, errorMessage, code);
      reply.Some?
      && ParsePacket(reply.value) == Some(Report(code,
           if errorMessage == [] then Units(DEFAULT_MESSAGE) else Units(errorMessage),
           if serverName == [] then Units(DEFAULT_NAME) else Units(serverName)))
  {
    DefaultsFit();
    hide Build, ParsePacket, Token, Units, DEFAULT_NAME, DEFAULT_MESSAGE, Encodable, Bmp;
    AsciiFits(DEFAULT_NAME);
    AsciiFits(DEFAULT_MESSAGE);
    var name, message := OrDefault(serverName, DEFAULT_NAME), OrDefault(errorMessage, DEFAULT_MESSAGE);
    assert FieldsFit(name, message, code) && Bmp(name) && Bmp(message) && |message| < 0x7000;
    BmpUnits(message);
    BmpUnits(name);
    ReplyIsPacket(name, message, code);
    ReplyParses(name, message, code);
  }

  lemma AsciiUnits(s: seq<Septet>)
    ensures Units(s) == s && Encodable(s) && Bmp(s)
  {
    AsciiFits(s);
    BmpUnits(s);
  }

  ghost predicate Says(reply: Option<bytes>, code: nat, message: seq<CodeUnit>, server: seq<CodeUnit>) {
    reply.Some? && ParsePacket(reply.value) == Some(Report(code, message, server))
  }

  /** The reply to a login says "Login Failed" under "R&Dbackup", as error 18456. */
  lemma LoginReply(serverName: Text, errorMessage: Text, code: int)
    requires serverName == [] && errorMessage == Ascii("Login Failed") && code == 18456
    ensures Says(CreatePayload(serverName, errorMessage, code), 18456, Ascii("Login Failed"), Ascii("R&Dbackup"))
  {
    assert |errorMessage| == 12;
    hide CreatePayload, ParsePacket, Units, Ascii;
    AsciiUnits(errorMessage);
    AsciiUnits(DEFAULT_NAME);
    AsciiFits([]);
    DefaultsAreFilled(serverName, errorMessage, code);
  }

  // ---------- _handle_login ----------

  /** `p.replace(b, b"")` for one byte. */
  function Without(s: bytes, b: byte): bytes {
    if s == [] then [] else (if s[0] == b then [] else [s[0]]) + Without(s[1..], b)
  }

  /** `((x ^ 0xA5) & 0x0F) << 4 | ((x ^ 0xA5) & 0xF0) >> 4` */
  function Reveal(x: byte): byte { Swap(XorByte(x, 0xA5)) }

  /** The low half of a byte moved up and the high half moved down. */
  function Swap(b: byte): byte {
    var n: nat := b;
    n % 16 * 16 + n / 16
  }

  lemma SwapTwice(b: byte)
    ensures Swap(Swap(b)) == b
  {
    var n: nat := b;
    var high, low := n / 16, n % 16;
    assert Swap(b) == low * 16 + high;
    assert (low * 16 + high) / 16 == low && (low * 16 + high) % 16 == high;
  }

  function RevealAll(s: bytes): bytes {
    if s == [] then [] else [Reveal(s[0])] + RevealAll(s[1..])
  }

  /** The field whose offset and length in code units stand at `at`. */
  function Field(data: bytes, at: nat): bytes
    requires at + 4 <= |data|
  {
    var start, n := FromLe16(data[at..at + 2]), FromLe16(data[at + 2..at + 4]);
    Slice(data, 8 + start, 8 + start + n * 2)
  }

  datatype Credentials = Credentials(username: seq<CodePoint>, password: bytes)

  /** What is checked; None is an exception before the check. The password is given by its code points. */
  function Login(data: bytes, utf8: bytes -> Option<seq<CodePoint>>): Option<Credentials> {
    if |data| < 56 || utf8(Without(Field(data, 48), 0)) == None then None
    else Some(Credentials(utf8(Without(Field(data, 48), 0)).value,
                          RevealAll(Without(Without(Field(data, 52), 0), 0xA5))))
  }

  /** `_handle_login` up to the check. */
  method HandleLogin(data: bytes, utf8: bytes -> Option<seq<CodePoint>>) returns (r: Option<Credentials>)
    ensures r == Login(data, utf8)
  {
    hide Without, Reveal, Field;
    if |Slice(data, 48, 52)| != 4 { return None; }
    var username := utf8(Without(Field(data, 48), 0));
    if username == None { return None; }
    if |Slice(data, 52, 56)| != 4 { return None; }
    var password := Without(Without(Field(data, 52), 0), 0xA5);
    var decrypted: bytes := [];
    for i := 0 to |password|
      invariant decrypted + RevealAll(password[i..]) == RevealAll(password)
    {
      assert password[i..][1..] == password[i + 1..];
      decrypted := decrypted + [Reveal(password[i])];
    }
    assert decrypted + RevealAll([]) == decrypted;
    r := Some(Credentials(username.value, decrypted));
  }

  // ---------- Credential recovery ----------

  /** Section 2.2.6.4 of [MS-TDS]: swap the halves of every byte, then xor with 0xA5. */
  function Obscure(b: byte): byte { XorByte(Swap(b), 0xA5) }

  function ObscureAll(s: bytes): (r: bytes)
    ensures |r| == |s|
  {
    if s == [] then [] else [Obscure(s[0])] + ObscureAll(s[1..])
  }

  /** Each undoes the other. */
  lemma RevealObscure(b: byte)
    ensures Reveal(Obscure(b)) == b
    ensures Obscure(Reveal(b)) == b
  {
    hide Swap, Xor;
    XorCancels(Swap(b), 0xA5);
    XorCancels(b, 0xA5);
    SwapTwice(b);
    SwapTwice(XorByte(b, 0xA5));
  }

  lemma {:induction false} XorZero(a: nat)
    ensures Xor(a, 0) == a && Xor(0, a) == a && Xor(a, a) == 0
  {
    if a > 0 { XorZero(a / 2); }
  }

  lemma SwappedConstants()
    ensures Swap(0x5A) == 0xA5 && Swap(0) == 0
  {
  }

  /** Among the obscured bytes, 0 stands for "Z" and 0xA5 for NUL. */
  lemma RemovedBytes(b: byte)
    ensures Obscure(b) == 0 <==> b == 0x5A
    ensures Obscure(b) == 0xA5 <==> b == 0
  {
    hide Xor, Swap;
    SwappedConstants();
    RevealObscure(b);
    XorZero(0xA5);
    assert Obscure(0x5A) == 0 && Obscure(0) == 0xA5;
    RevealObscure(0x5A);
    RevealObscure(0);
  }

  /** What is recovered of a string sent in obscured form: all its bytes except NUL and "Z". */
  lemma {:induction false} RecoveredBytes(s: bytes)
    ensures RevealAll(Without(Without(ObscureAll(s), 0), 0xA5)) == Without(Without(s, 0x5A), 0)
  {
    hide Reveal, Obscure;
    if s == [] {
      assert ObscureAll(s) == [];
    } else {
      RecoveredBytes(s[1..]);
      RevealObscure(s[0]);
      RemovedBytes(s[0]);
      RecoveredStep(s[0], s[1..], Obscure(s[0]), ObscureAll(s[1..]));
      assert s == [s[0]] + s[1..];
    }
  }

  lemma RecoveredStep(b: byte, s: bytes, x: byte, t: bytes)
    requires Reveal(x) == b && (x == 0 <==> b == 0x5A) && (x == 0xA5 <==> b == 0)
    requires RevealAll(Without(Without(t, 0), 0xA5)) == Without(Without(s, 0x5A), 0)
    ensures RevealAll(Without(Without([x] + t, 0), 0xA5)) == Without(Without([b] + s, 0x5A), 0)
  {
    hide Reveal, Without, RevealAll;
    WithoutTwoCons(x, t, 0, 0xA5);
    WithoutTwoCons(b, s, 0x5A, 0);
    RevealCons(x, Without(Without(t, 0), 0xA5));
  }

  lemma WithoutCons(x: byte, t: bytes, b: byte)
    ensures Without([x] + t, b) == if x == b then Without(t, b) else [x] + Without(t, b)
  {
    assert ([x] + t)[1..] == t;
  }

  lemma WithoutTwoCons(x: byte, t: bytes, b: byte, c: byte)
    ensures Without(Without([x] + t, b), c)
         == if x == b || x == c then Without(Without(t, b), c) else [x] + Without(Without(t, b), c)
  {
    hide Without;
    WithoutCons(x, t, b);
    WithoutCons(x, Without(t, b), c);
  }

  lemma RevealCons(x: byte, t: bytes)
    ensures RevealAll([x] + t) == [Reveal(x)] + RevealAll(t)
  {
    assert ([x] + t)[1..] == t;
  }

  /** A code unit that comes back as itself. */
  predicate Faithful(u: CodeUnit) { 1 <= u < 256 && u != 0x5A }

  /** What a password string sent by a client comes back as. */
  function Recovered(units: seq<CodeUnit>): bytes {
    Without(Without(UnitBytes(units), 0x5A), 0)
  }

  /** What one code unit comes back as. */
  function RecoveredUnit(u: CodeUnit): (r: bytes)
    ensures u < 256 ==> r == if Faithful(u) then [u] else []
  {
    (if u % 256 == 0 || u % 256 == 0x5A then [] else [u % 256])
    + (if u / 256 == 0 || u / 256 == 0x5A then [] else [u / 256])
  }

  lemma RecoveredCons(units: seq<CodeUnit>)
    requires units != []
    ensures Recovered(units) == RecoveredUnit(units[0]) + Recovered(units[1..])
  {
    hide Without;
    var u, t := units[0], UnitBytes(units[1..]);
    RecoveredPair(u % 256, u / 256, t);
    assert UnitBytes(units) == [u % 256] + ([u / 256] + t);
  }

  lemma RecoveredPair(low: byte, high: byte, rest: bytes)
    ensures Without(Without([low] + ([high] + rest), 0x5A), 0)
         == (if low == 0 || low == 0x5A then [] else [low]) + (if high == 0 || high == 0x5A then [] else [high])
            + Without(Without(rest, 0x5A), 0)
  {
    hide Without;
    WithoutTwoCons(low, [high] + rest, 0x5A, 0);
    WithoutTwoCons(high, rest, 0x5A, 0);
  }

  lemma {:induction false} RecoveredIsShort(units: seq<CodeUnit>)
    requires forall i :: 0 <= i < |units| ==> units[i] < 256
    ensures |Recovered(units)| <= |units|
    ensures |Recovered(units)| == |units| ==> forall i :: 0 <= i < |units| ==> Faithful(units[i])
  {
    if units != [] {
      RecoveredCons(units);
      RecoveredIsShort(units[1..]);
      if |Recovered(units)| == |units| {
        forall i | 0 <= i < |units| ensures Faithful(units[i]) {
          if i > 0 { assert units[i] == units[1..][i - 1]; }
        }
      }
    }
  }

  lemma {:induction false} FaithfulIsRecovered(units: seq<CodeUnit>)
    requires forall i :: 0 <= i < |units| ==> Faithful(units[i])
    ensures Recovered(units) == units
  {
    if units != [] {
      RecoveredCons(units);
      FaithfulIsRecovered(units[1..]);
    }
  }

  /** A password comes back unchanged exactly when all its code units are in 1..255 and none is "Z". */
  lemma RecoveredIsExact(units: seq<CodeUnit>)
    ensures Recovered(units) == units <==> forall i :: 0 <= i < |units| ==> Faithful(units[i])
  {
    if Recovered(units) == units {
      assert forall i :: 0 <= i < |units| ==> units[i] == Recovered(units)[i];
      RecoveredIsShort(units);
    }
    if forall i :: 0 <= i < |units| ==> Faithful(units[i]) { FaithfulIsRecovered(units); }
  }

  // ---------- The user name ----------

  /** What is left of one code unit, and of one code point, without zero bytes. */
  function Unpadded(u: CodeUnit): bytes {
    (if u % 256 == 0 then [] else [u % 256]) + (if u / 256 == 0 then [] else [u / 256])
  }

  function UnpaddedPoint(c: CodePoint): bytes {
    if c < 0x1_0000 then Unpadded(c)
    else Unpadded(0xD800 + (c - 0x1_0000) / 0x400) + Unpadded(0xDC00 + (c - 0x1_0000) % 0x400)
  }

  /** The bytes of a user name in UTF-16 that the decoder sees. */
  function Seen(user: seq<CodePoint>): bytes { Without(Utf16Le(user), 0) }

  lemma WithoutPair(low: byte, high: byte, rest: bytes)
    ensures Without([low] + ([high] + rest), 0)
         == (if low == 0 then [] else [low]) + (if high == 0 then [] else [high]) + Without(rest, 0)
  {
    hide Without;
    WithoutCons(low, [high] + rest, 0);
    WithoutCons(high, rest, 0);
  }

  lemma UnpaddedBytes(u: CodeUnit, rest: bytes)
    ensures Without(Le16(u) + rest, 0) == Unpadded(u) + Without(rest, 0)
  {
    hide Without;
    WithoutPair(u % 256, u / 256, rest);
    assert Le16(u) + rest == [u % 256] + ([u / 256] + rest);
  }

  lemma SeenCons(user: seq<CodePoint>)
    requires user != []
    ensures Seen(user) == UnpaddedPoint(user[0]) + Seen(user[1..])
  {
    hide Unpadded, Without, Le16;
    var c, rest := user[0], Utf16Le(user[1..]);
    if c < 0x1_0000 {
      assert Utf16Le(user) == Le16(c) + rest by { UnitsOfTwo([c], Units(user[1..])); }
      UnpaddedBytes(c, rest);
    } else {
      var high, low: CodeUnit := 0xD800 + (c - 0x1_0000) / 0x400, 0xDC00 + (c - 0x1_0000) % 0x400;
      UnitsOfTwo([high, low], Units(user[1..]));
      assert Utf16Le(user) == Le16(high) + (Le16(low) + rest);
      UnpaddedBytes(high, Le16(low) + rest);
      UnpaddedBytes(low, rest);
    }
  }

  lemma UnitsOfTwo(units: seq<CodeUnit>, rest: seq<CodeUnit>)
    requires 1 <= |units| <= 2
    ensures UnitBytes(units + rest)
         == Le16(units[0]) + (if |units| == 1 then UnitBytes(rest) else Le16(units[1]) + UnitBytes(rest))
  {
    hide Le16;
    assert (units + rest)[1..] == units[1..] + rest;
    if |units| == 2 { assert (units[1..] + rest)[1..] == rest; }
  }

  /** UTF-8 is never shorter than UTF-16 without its zero bytes, and is the same only for ASCII without NUL. */
  lemma PointIsAscii(c: CodePoint)
    ensures |Utf8(c)| >= |UnpaddedPoint(c)|
    ensures Utf8(c) == UnpaddedPoint(c) <==> 1 <= c < 0x80
  {
    if c >= 0x1_0000 {
      var low := 0xDC00 + (c - 0x1_0000) % 0x400;
      assert low / 256 >= 0xDC;
      assert Unpadded(low)[|Unpadded(low)| - 1] == low / 256;
      assert UnpaddedPoint(c)[|UnpaddedPoint(c)| - 1] == low / 256;
    } else if 0x80 <= c < 0x800 {
      assert Utf8(c)[1] >= 0x80;
      assert c / 256 < 8;
      if |Unpadded(c)| == 2 { assert Unpadded(c)[1] == c / 256; }
    } else if c >= 0x800 {
      assert |Utf8(c)| == 3;
    } else if c == 0 {
      assert Unpadded(0) == [];
    } else {
      assert Unpadded(c) == [c];
    }
  }

  lemma {:induction false} SeenIsAscii(user: seq<CodePoint>)
    requires Encodable(user)
    ensures |Utf8All(user)| >= |Seen(user)|
    ensures Utf8All(user) == Seen(user) <==> forall i :: 0 <= i < |user| ==> 1 <= user[i] < 0x80
  {
    hide Utf8, UnpaddedPoint, Seen;
    if user == [] {
      SeenNothing();
    } else {
      var c, rest := user[0], user[1..];
      SeenCons(user);
      PointIsAscii(c);
      assert Encodable(rest) by { assert forall x :: x in rest ==> x in user; }
      SeenIsAscii(rest);
      SameParts(Utf8(c), Utf8All(rest), UnpaddedPoint(c), Seen(rest));
      assert forall i :: 0 < i < |user| ==> user[i] == rest[i - 1];
      assert forall i :: 0 <= i < |rest| ==> rest[i] == user[i + 1];
    }
  }

  lemma SameParts(a: bytes, b: bytes, x: bytes, y: bytes)
    requires |a| >= |x| && |b| >= |y|
    ensures a + b == x + y <==> a == x && b == y
  {
    if a + b == x + y {
      assert |a| == |x| && |b| == |y|;
      assert a == (a + b)[..|a|] && x == (x + y)[..|a|];
      assert b == (a + b)[|a|..] && y == (x + y)[|a|..];
    }
  }

  lemma SeenNothing()
    ensures Seen([]) == []
  {
  }

  /**
    * A record that carries the two strings: at offset 48 and 52 stand where each string starts, counted from behind
    * the packet header, and its number of code units; the password is in obscured form (section 2.2.6.4 of [MS-TDS]).
    */
  ghost predicate CarriesLogin(data: bytes, user: seq<CodePoint>, password: seq<CodeUnit>) {
    |data| >= 56 && CarriesField(data, 48, Utf16Le(user)) && CarriesField(data, 52, ObscureAll(UnitBytes(password)))
  }

  ghost predicate CarriesField(data: bytes, at: nat, field: bytes)
    requires at + 4 <= |data|
  {
    exists start: nat, units: nat ::
      start < 0x1_0000 && units < 0x1_0000 && |field| == 2 * units
      && data[at..at + 2] == Le16(start) && data[at + 2..at + 4] == Le16(units)
      && OccursAt(data, field, 8 + start)
  }

  /** A client's record: fields up to the user name, the two descriptions, more fields, and the strings. */
  lemma ClientRecord(head: bytes, middle: bytes, between: bytes, rest: bytes, user: Text, password: seq<CodeUnit>)
    requires |head| == 48 && |Units(user)| < 0x1_0000 && |password| < 0x1_0000
    requires 48 + |middle| + 2 * |Units(user)| + |between| < 0x1_0000
    ensures var start := 48 + |middle|;
      var data := head + Le16(start) + Le16(|Units(user)|)
                  + Le16(start + 2 * |Units(user)| + |between|) + Le16(|password|)
                  + middle + Utf16Le(user) + between + ObscureAll(UnitBytes(password)) + rest;
      CarriesLogin(data, user, password)
  {
    hide Le16, ObscureAll, UnitBytes, Units, CarriesField;
    TwoFields(head, middle, Utf16Le(user), between, ObscureAll(UnitBytes(password)), rest, |Units(user)|, |password|);
  }

  lemma TwoFields(head: bytes, middle: bytes, first: bytes, between: bytes, second: bytes, rest: bytes, n: nat, m: nat)
    requires |head| == 48 && |first| == 2 * n && |second| == 2 * m && n < 0x1_0000 && m < 0x1_0000
    requires 48 + |middle| + 2 * n + |between| < 0x1_0000
    ensures var start := 48 + |middle|;
      var data := head + Le16(start) + Le16(n) + Le16(start + 2 * n + |between|) + Le16(m)
                  + middle + first + between + second + rest;
      |data| >= 56 && CarriesField(data, 48, first) && CarriesField(data, 52, second)
  {
    var start := 48 + |middle|;
    var a, b, c, d := Le16(start), Le16(n), Le16(start + 2 * n + |between|), Le16(m);
    hide Le16, CarriesField;
    var front := head + a + b + c + d;
    var data := front + middle + first + between + second + rest;
    FieldsInPlace(head, a, b, c, d, middle + first + between + second + rest);
    Regroup(front, middle, first, between, second, rest);
    OccursThere(front + middle, first, between + second + rest);
    OccursThere(front + middle + first + between, second, rest);
    Carries(data, 48, first, start, n);
    Carries(data, 52, second, start + 2 * n + |between|, m);
  }

  lemma Regroup(front: bytes, a: bytes, b: bytes, c: bytes, d: bytes, e: bytes)
    ensures front + a + b + c + d + e == front + (a + b + c + d + e)
    ensures front + a + b + c + d + e == front + a + b + (c + d + e)
  {
  }

  lemma FieldsInPlace(head: bytes, a: bytes, b: bytes, c: bytes, d: bytes, rest: bytes)
    requires |head| == 48 && |a| == 2 && |b| == 2 && |c| == 2 && |d| == 2
    ensures var data := head + a + b + c + d + rest;
      data[48..50] == a && data[50..52] == b && data[52..54] == c && data[54..56] == d
  {
  }

  lemma OccursThere(front: bytes, s: bytes, rest: bytes)
    ensures OccursAt(front + s + rest, s, |front|)
  {
  }

  lemma Carries(data: bytes, at: nat, field: bytes, start: nat, units: nat)
    requires at + 4 <= |data| && start < 0x1_0000 && units < 0x1_0000 && |field| == 2 * units
    requires data[at..at + 2] == Le16(start) && data[at + 2..at + 4] == Le16(units) && OccursAt(data, field, 8 + start)
    ensures CarriesField(data, at, field)
  {
  }

  lemma FieldIsCarried(data: bytes, at: nat, field: bytes)
    requires at + 4 <= |data| && CarriesField(data, at, field)
    ensures Field(data, at) == field
  {
    var start: nat, units: nat :|
      start < 0x1_0000 && units < 0x1_0000 && |field| == 2 * units
      && data[at..at + 2] == Le16(start) && data[at + 2..at + 4] == Le16(units)
      && OccursAt(data, field, 8 + start);
    hide Slice;
    FieldAt(data, at, start, units);
    hide Field, Le16, FromLe16;
    SliceOfOccurrence(data, field, 8 + start);
  }

  lemma FieldAt(data: bytes, at: nat, start: nat, units: nat)
    requires at + 4 <= |data| && start < 0x1_0000 && units < 0x1_0000
    requires data[at..at + 2] == Le16(start) && data[at + 2..at + 4] == Le16(units)
    ensures Field(data, at) == Slice(data, 8 + start, 8 + start + units * 2)
  {
    Read16(start);
    Read16(units);
    hide Slice, Le16, FromLe16;
  }

  lemma SliceOfOccurrence(data: bytes, field: bytes, at: nat)
    requires OccursAt(data, field, at)
    ensures Slice(data, at, at + |field|) == field
  {
  }

  /**
    * For every LOGIN7 record: the user name that is checked is the one that was sent exactly when all its characters
    * are in 1..127, and the password is, when the user name can be decoded at all, exactly when all its code units
    * are in 1..255 and none is "Z".
    */
  lemma LoginIsRecovered(data: bytes, user: seq<CodePoint>, password: seq<CodeUnit>,
                         utf8: bytes -> Option<seq<CodePoint>>)
    requires CarriesLogin(data, user, password) && Encodable(user) && Strict(utf8)
    ensures Login(data, utf8).Some? && Login(data, utf8).value.username == user
      <==> forall i :: 0 <= i < |user| ==> 1 <= user[i] < 0x80
    ensures Login(data, utf8).Some? ==> Login(data, utf8).value.password == Recovered(password)
    ensures Login(data, utf8).Some? ==>
      (Login(data, utf8).value.password == password
       <==> forall i :: 0 <= i < |password| ==> 1 <= password[i] < 256 && password[i] != 0x5A)
  {
    hide Without, RevealAll, ObscureAll, UnitBytes, Units, Field, CarriesField, Utf8All, Encodable;
    FieldIsCarried(data, 48, Utf16Le(user));
    FieldIsCarried(data, 52, ObscureAll(UnitBytes(password)));
    SeenIsAscii(user);
    assert utf8(Seen(user)) == Some(user) <==> Utf8All(user) == Seen(user);
    RecoveredBytes(UnitBytes(password));
    RecoveredIsExact(password);
    assert (forall i :: 0 <= i < |password| ==> Faithful(password[i]))
      <==> (forall i :: 0 <= i < |password| ==> 1 <= password[i] < 256 && password[i] != 0x5A);
  }

  lemma SeenOfOne(c: CodePoint)
    ensures Seen([c]) == UnpaddedPoint(c)
  {
    hide UnpaddedPoint, Seen;
    SeenCons([c]);
    SeenNothing();
    assert [c][1..] == [];
  }

  /** Other user names can be handed on as different ones, as C3 A9 is as E9. */
  lemma HandedOnAsAnother(utf8: bytes -> Option<seq<CodePoint>>)
    requires Strict(utf8)
    ensures utf8(Seen([0xC3, 0xA9])) == Some([0xE9])
  {
    assert UnpaddedPoint(0xA9) == [0xA9] && UnpaddedPoint(0xC3) == [0xC3];
    TwoByteCharacter();
    hide Seen, UnpaddedPoint, Utf8All, Encodable;
    SeenOfOne(0xA9);
    assert [0xC3, 0xA9][1..] == [0xA9];
    SeenCons([0xC3, 0xA9]);
  }

  lemma TwoByteCharacter()
    ensures Utf8All([0xE9]) == [0xC3, 0xA9] && Encodable([0xE9])
  {
    assert [0xE9][1..] == [];
    assert Utf8(0xE9) == [0xC3, 0xA9];
  }

  /** Or they can stop the decoder, as E9 alone does. */
  lemma StopsTheDecoder(utf8: bytes -> Option<seq<CodePoint>>)
    requires Strict(utf8)
    ensures utf8(Seen([0xE9])) == None
  {
    assert UnpaddedPoint(0xE9) == [0xE9];
    hide Seen, UnpaddedPoint, Utf8All, Encodable;
    SeenOfOne(0xE9);
    forall s: seq<CodePoint> ensures Utf8All(s) != [0xE9] { LoneByte(s); }
  }

  lemma LoneByte(s: seq<CodePoint>)
    ensures Utf8All(s) != [0xE9]
  {
    if s != [] {
      var first, rest := Utf8(s[0]), Utf8All(s[1..]);
      assert first[0] < 0x80 || |first| >= 2;
      hide Utf8;
      assert (first + rest)[0] == first[0];
      assert |first + rest| >= |first|;
    }
  }
}
