/** The MySQL greeting, the login frame and the scramble search. */
module Mysql {
  import opened Prelude

  type Digest = s: bytes | |s| == 20 witness seq(20, _ => 0)

  // ---------- Packets ----------

  /**
    * `_create_response`: the first three bytes of the packed length, the sequence id and the payload; None is
    * struct.error.
    */
  function CreateResponse(payload: bytes, sequenceId: byte): (r: Option<bytes>)
    ensures r.Some? ==> |r.value| == |payload| + 4
  {
    if |payload| >= 0x1_0000_0000 || sequenceId >= 128 then None
    else Some(Le32(|payload|)[..3] + [sequenceId] + payload)
  }

  /** The length a client reads from the header. */
  function HeaderLength(packet: bytes): nat
    requires |packet| >= 3
  {
    FromLe16(packet[..2]) + 0x1_0000 * packet[2] as int
  }

  /** The header is true exactly for payloads below 2^24 bytes; beyond, it is off by a multiple of that. */
  lemma HeaderIsExact(payload: bytes, sequenceId: byte)
    requires CreateResponse(payload, sequenceId).Some?
    ensures var packet := CreateResponse(payload, sequenceId).value;
      |packet| == |payload| + 4
      && HeaderLength(packet) == |payload| % 0x100_0000
      && (HeaderLength(packet) == |payload| <==> |payload| < 0x100_0000)
  {
    var n := |payload|;
    var packet := CreateResponse(payload, sequenceId).value;
    var low, high := n % 0x1_0000, n / 0x1_0000;
    assert Le32(n)[..3][..2] == Le16(low);
    assert packet[..2] == Le16(low) && packet[2] == Le16(high)[0] == high % 256;
    Read16(low);
    assert n == low + 0x1_0000 * (high % 256) + 0x100_0000 * (high / 256);
  }

  /** Behind the length stand the sequence number and the payload. */
  lemma ResponseLayout(payload: bytes, sequenceId: byte)
    ensures CreateResponse(payload, sequenceId).Some? <==> |payload| < 0x1_0000_0000 && sequenceId < 128
    ensures CreateResponse(payload, sequenceId).Some? ==>
      CreateResponse(payload, sequenceId).value[3..] == [sequenceId] + payload
  {
  }

  // ---------- greeting ----------

  const VERSION: bytes := Ascii("5.7.00")
  const PART1: bytes := Ascii("12345678")
  const PART2: bytes := Ascii("123456789012")
  const PLUGIN: bytes := Ascii("mysql_native_password")

  /** The parts between the first and the second half of the challenge: flags, charset, status and challenge length. */
  const FLAGS: bytes := [0xff, 0xf7, 0x21, 0x02, 0x00, 0x0f, 0x81, 0x15]

  /** The handshake payload of protocol version 10 and its parts. */
  function Payload(version: bytes, thread: bytes, part1: bytes, flags: bytes, part2: bytes, plugin: bytes): bytes {
    [0x0a] + (version + [0]) + thread + (part1 + [0]) + flags + Zeros(10) + (part2 + [0]) + (plugin + [0])
  }

  function Greeting(): Option<bytes> {
    CreateResponse(Payload(VERSION, [0x36, 0x00, 0x00, 0x00], PART1, FLAGS, PART2, PLUGIN), 0)
  }

  /** What a client of protocol version 10 takes from the greeting. */
  datatype Handshake = Handshake(version: bytes, challenge: bytes, plugin: bytes)

  /** An independent parser of the version 10 handshake: a NUL-ended string, fixed fields and the split challenge. */
  function ParseHandshake(s: bytes): Option<Handshake> {
    if |s| < 1 || s[0] != 10 then None
    else
      var n := Span(s[1..], IsNul);
      var t := s[1 + n..];
      if |t| < 32 then None
      else
        var second := if t[21] > 21 then t[21] - 8 else 13;
        var u := t[32..];
        if |u| < second then None
        else Some(Handshake(s[1..1 + n], t[5..13] + u[..second - 1], u[second..][..Span(u[second..], IsNul)]))
  }

  /** The salt of the scramble search. */
  const SALT: bytes := PART1 + PART2

  /** The parser takes a payload apart again. */
  lemma PayloadParses(version: bytes, thread: bytes, part1: bytes, flags: bytes, part2: bytes, plugin: bytes)
    requires |thread| == 4 && |part1| == 8 && |flags| == 8 && flags[7] == 21 && |part2| == 12
    requires (forall i :: 0 <= i < |version| ==> version[i] != 0) && forall i :: 0 <= i < |plugin| ==> plugin[i] != 0
    ensures ParseHandshake(Payload(version, thread, part1, flags, part2, plugin))
         == Some(Handshake(version, part1 + part2, plugin))
  {
    hide Span, Zeros;
    var s := Payload(version, thread, part1, flags, part2, plugin);
    var u := (part2 + [0]) + (plugin + [0]);
    var rest := thread + (part1 + [0]) + flags + Zeros(10) + u;
    assert s[1..] == version + [0] + rest;
    NulEnds(version, rest);
    assert s[1..1 + |version|] == version;
    var t := s[1 + |version|..];
    assert t == [0] + rest;
    assert t[21] == flags[7] && t[5..13] == part1;
    assert t[32..] == u && u[..12] == part2;
    assert u[13..] == plugin + [0] + [];
    NulEnds(plugin, []);
    assert u[13..][..|plugin|] == plugin;
  }

  /** The challenge a client finds in the greeting. */
  function ClientChallenge(): Option<bytes> {
    match Greeting()
    case None => None
    case Some(packet) =>
      if HeaderLength(packet) != |packet| - 4 then None
      else
        match ParseHandshake(packet[4..])
        case None => None
        case Some(h) => if h.plugin == PLUGIN then Some(h.challenge) else None
  }

  /** The salt used to check a login is the challenge that was sent in the greeting. */
  lemma SaltIsChallenge()
    ensures ClientChallenge() == Some(SALT)
  {
    hide ParseHandshake, Payload;
    PayloadLength();
    var s := Payload(VERSION, [0x36, 0x00, 0x00, 0x00], PART1, FLAGS, PART2, PLUGIN);
    HeaderIsExact(s, 0);
    PayloadParses(VERSION, [0x36, 0x00, 0x00, 0x00], PART1, FLAGS, PART2, PLUGIN);
    assert Greeting().value[4..] == s;
  }

  lemma PayloadLength()
    ensures |Payload(VERSION, [0x36, 0x00, 0x00, 0x00], PART1, FLAGS, PART2, PLUGIN)| == 74
  {
  }

  /** A text and its NUL. */
  function Ended(text: string): bytes {
    var s: bytes := Ascii(text);
    s + [0]
  }

  /** The greeting, part by part. */
  lemma GreetingIs()
    ensures Greeting() == Some(
      [0x4a, 0x00, 0x00, 0x00] + ([0x0a] + Ended("5.7.00") + [0x36, 0x00, 0x00, 0x00] + Ended("12345678")
      + [0xff, 0xf7, 0x21, 0x02, 0x00, 0x0f, 0x81, 0x15] + Zeros(10) + Ended("123456789012")
      + Ended("mysql_native_password")))
  {
    PayloadLength();
    assert Le32(74)[..3] == [0x4a, 0x00, 0x00];
    hide Payload;
    var s := Payload(VERSION, [0x36, 0x00, 0x00, 0x00], PART1, FLAGS, PART2, PLUGIN);
    assert Greeting() == Some([0x4a, 0x00, 0x00] + [0] + s);
    assert [0x4a, 0x00, 0x00] + [0] + s == [0x4a, 0x00, 0x00, 0x00] + s;
    hide Greeting, CreateResponse, Ended;
    PayloadIs();
  }

  lemma PayloadIs()
    ensures Payload(VERSION, [0x36, 0x00, 0x00, 0x00], PART1, FLAGS, PART2, PLUGIN)
         == [0x0a] + Ended("5.7.00") + [0x36, 0x00, 0x00, 0x00] + Ended("12345678")
            + [0xff, 0xf7, 0x21, 0x02, 0x00, 0x0f, 0x81, 0x15] + Zeros(10) + Ended("123456789012")
            + Ended("mysql_native_password")
  {
    hide Ascii;
  }

  lemma SaltIs()
    ensures SALT == Ascii("12345678123456789012")
  {
  }

  // ---------- parse_data ----------

  datatype Parsed = Parsed(username: bytes, password: bytes, good: bool)

  /** `parse_data`: a failed read leaves what was assigned before it. */
  function ParseData(data: bytes): Parsed {
    var n := Span(Drop(data, 36), IsNul);
    if n == |Drop(data, 36)| then Parsed([], [], false)
    else
      var username := Slice(data, 36, 36 + n);
      var offset := 36 + n + 2;
      if offset > |data| then Parsed(username, [], false)
      else
        var length := data[offset - 1];
        Parsed(username, Slice(data, offset, offset + length as int), length == 20)
  }

  /** A login frame: 36 bytes of packet header and fixed fields, the user name, and the counted scramble. */
  function Frame(head: bytes, username: bytes, scramble: bytes, rest: bytes): bytes
    requires |scramble| < 256
  {
    head + username + [0] + [|scramble|] + scramble + rest
  }

  /** The user name and the scramble come back exactly, and the frame is good exactly when the scramble has 20 bytes. */
  lemma FrameIsParsed(head: bytes, username: bytes, scramble: bytes, rest: bytes)
    requires |head| == 36 && |scramble| < 256 && forall i :: 0 <= i < |username| ==> username[i] != 0
    ensures ParseData(Frame(head, username, scramble, rest)) == Parsed(username, scramble, |scramble| == 20)
  {
    var data := Frame(head, username, scramble, rest);
    assert Drop(data, 36) == username + [0] + ([|scramble|] + scramble + rest);
    NulEnds(username, [|scramble|] + scramble + rest);
    var at := 36 + |username|;
    assert Slice(data, 36, at) == username;
    assert data[at + 1] == |scramble|;
    assert Slice(data, at + 2, at + 2 + |scramble|) == scramble;
  }

  /** The other frames: no NUL behind byte 36, or nothing behind that NUL. */
  lemma BrokenFrames(head: bytes, username: bytes, rest: bytes)
    requires |head| == 36 && forall i :: 0 <= i < |username| ==> username[i] != 0
    ensures ParseData(head + username) == Parsed([], [], false)
    ensures ParseData(head + username + [0]) == Parsed(username, [], false)
    ensures |rest| < 36 ==> ParseData(rest) == Parsed([], [], false)
  {
    var data := head + username + [0];
    assert Drop(head + username, 36) == username + [];
    SpanOfRun(username, [], IsNul);
    assert Drop(data, 36) == username + [0] + [];
    NulEnds(username, []);
    assert Slice(data, 36, 36 + |username|) == username;
  }

  // ---------- Scrambles ----------

  function XorAll(a: bytes, b: bytes): (r: bytes)
    ensures |r| == if |a| <= |b| then |a| else |b|
    ensures forall i :: 0 <= i < |r| ==> r[i] == XorByte(a[i], b[i])
  {
    if a == [] || b == [] then [] else [XorByte(a[0], b[0])] + XorAll(a[1..], b[1..])
  }

  lemma XorAllCancels(a: bytes, b: bytes)
    requires |a| == |b|
    ensures XorAll(XorAll(a, b), b) == a
  {
    forall i | 0 <= i < |a| ensures XorAll(XorAll(a, b), b)[i] == a[i] { XorCancels(a[i], b[i]); }
  }

  /** The native-password scramble a client sends for a password and a challenge. */
  function Scramble(H: bytes -> Digest, password: bytes, challenge: bytes): (r: bytes)
    ensures |r| == 20
  {
    XorAll(H(password), H(challenge + H(H(password))))
  }

  /** How a server that stores only the double hash checks a scramble. */
  predicate Accepts(H: bytes -> Digest, stored: Digest, challenge: bytes, scramble: bytes) {
    H(XorAll(scramble, H(challenge + stored))) == stored
  }

  /** A scramble is accepted by a standard server, and only one scramble is if the hash has no second preimage here. */
  lemma ScrambleIsAccepted(H: bytes -> Digest, password: bytes, challenge: bytes, scramble: bytes)
    requires |scramble| == 20
    ensures scramble == Scramble(H, password, challenge) ==> Accepts(H, H(H(password)), challenge, scramble)
    ensures Accepts(H, H(H(password)), challenge, scramble)
            && (forall x :: H(x) == H(H(password)) ==> x == H(password))
            ==> scramble == Scramble(H, password, challenge)
  {
    var key := H(challenge + H(H(password)));
    XorAllCancels(H(password), key);
    XorAllCancels(scramble, key);
  }

  // ---------- decode ----------

  /** A word is bytes, or text when the list was read from a file. */
  datatype Word = Raw(bytes: bytes) | Text(text: string)

  /** `word.strip(b"\n")` */
  function Stripped(word: bytes): bytes { StripOf(word, 0x0A) }

  /** Newlines are taken away at both ends, all of them and nothing else. */
  lemma StrippedIsExact(word: bytes) returns (a: bytes, b: bytes)
    ensures word == a + Stripped(word) + b
    ensures (forall i :: 0 <= i < |a| ==> a[i] == 0x0A) && forall i :: 0 <= i < |b| ==> b[i] == 0x0A
    ensures var r := Stripped(word); r != [] ==> r[0] != 0x0A && r[|r| - 1] != 0x0A
  {
    a, b := StripIsExact(word, 0x0A);
  }

  /** A word whose scramble under the fixed salt is the given hash. */
  predicate Matches(H: bytes -> Digest, word: Word, hash: bytes) {
    word.Raw? && Scramble(H, Stripped(word.bytes), SALT) == hash
  }

  /** The first word that matches or is text. */
  function Stop(H: bytes -> Digest, words: seq<Word>, hash: bytes): (i: nat)
    ensures i <= |words|
    ensures i < |words| ==> words[i].Text? || Matches(H, words[i], hash)
    ensures forall j :: 0 <= j < i ==> words[j].Raw? && !Matches(H, words[j], hash)
  {
    if words == [] || words[0].Text? || Matches(H, words[0], hash) then 0 else 1 + Stop(H, words[1..], hash)
  }

  /** The search over the words; text raises a suppressed TypeError, which ends it. */
  method Decode(H: bytes -> Digest, words: seq<Word>, hash: bytes) returns (r: Option<Word>)
    ensures r == DecodeSpec(H, words, hash)
  {
    for i := 0 to |words|
      invariant forall j :: 0 <= j < i ==> words[j].Raw? && !Matches(H, words[j], hash)
    {
      if words[i].Text? {
        StopIs(H, words, hash, i);
        return None;
      }
      var hash1 := H(Stripped(words[i].bytes));
      var hash2 := H(hash1);
      var encrypted := XorAll(hash1, H(SALT + hash2));
      if encrypted == hash {
        StopIs(H, words, hash, i);
        return Some(words[i]);
      }
    }
    r := None;
  }

  function DecodeSpec(H: bytes -> Digest, words: seq<Word>, hash: bytes): Option<Word> {
    var i := Stop(H, words, hash);
    if i < |words| && words[i].Raw? then Some(words[i]) else None
  }

  lemma StopIs(H: bytes -> Digest, words: seq<Word>, hash: bytes, i: nat)
    requires i < |words| && (words[i].Text? || Matches(H, words[i], hash))
    requires forall j :: 0 <= j < i ==> words[j].Raw? && !Matches(H, words[j], hash)
    ensures Stop(H, words, hash) == i
  {
    assert !(Stop(H, words, hash) < i);
  }

  /** On byte words, the result is the first match, and None exactly when there is none. */
  lemma DecodeIsFirstMatch(H: bytes -> Digest, words: seq<Word>, hash: bytes)
    requires forall i :: 0 <= i < |words| ==> words[i].Raw?
    ensures var r := DecodeSpec(H, words, hash);
      match r
      case None => forall i :: 0 <= i < |words| ==> !Matches(H, words[i], hash)
      case Some(w) => exists i :: 0 <= i < |words| && words[i] == w && Matches(H, w, hash)
                                  && forall j :: 0 <= j < i ==> !Matches(H, words[j], hash)
  {
  }

  /** A word list read from a file never recognizes a password. */
  lemma TextWordsNeverMatch(H: bytes -> Digest, words: seq<Word>, hash: bytes)
    requires forall i :: 0 <= i < |words| ==> words[i].Text?
    ensures DecodeSpec(H, words, hash) == None
  {
  }

  // ---------- The login ----------

  /** What the password field of the log entry shows. */
  datatype Secret = Known(word: Word) | Hex(scramble: bytes) | Dump(data: bytes) | Plain(raw: bytes)

  datatype Entry = Entry(success: bool, username: string, secret: Secret)

  datatype Answer = AccessDenied | TooMany

  datatype Server = Server(username: string, words: seq<Word>)

  /** The entry and the answer for one message; `text` is the decoding of bytes for comparison and logging. */
  function Judge(H: bytes -> Digest, text: bytes -> string, server: Server, data: bytes): (Entry, Answer) {
    var p := ParseData(data);
    var name := text(p.username);
    if !p.good then (Entry(false, name, Plain(p.password)), TooMany)
    else if p.password == [] then (Entry(false, name, Dump(data)), AccessDenied)
    else
      var word := DecodeSpec(H, server.words, p.password);
      if word.Some? && name == server.username then (Entry(true, name, Known(word.value)), TooMany)
      else (Entry(false, name, Hex(p.password)), AccessDenied)
  }

  class Connection {
    const server: Server
    var state: nat
    var log: seq<Entry>
    var answers: seq<Answer>
    var closed: bool

    constructor (server: Server)
      ensures this.server == server && state == 1 && log == [] && answers == [] && !closed
    {
      this.server, state, log, answers, closed := server, 1, [], [], false;
    }

    method DataReceived(H: bytes -> Digest, text: bytes -> string, data: bytes)
      modifies this`log, this`answers, this`closed
      ensures state == 1 ==> log == old(log) + [Judge(H, text, server, data).0]
                             && answers == old(answers) + [Judge(H, text, server, data).1] && closed == old(closed)
      ensures state != 1 ==> log == old(log) && answers == old(answers) && closed
    {
      if state != 1 {
        closed := true;
        return;
      }
      var denied, success := false, false;
      var Parsed(username, password, good) := ParseData(data);
      var name := text(username);
      var secret := Plain(password);
      if good {
        if password != [] {
          var word := Decode(H, server.words, password);
          if word != None && name == server.username {
            secret, success := Known(word.value), true;
          } else {
            secret, denied := Hex(password), true;
          }
        } else {
          denied, secret := true, Dump(data);
        }
      }
      log := log + [Entry(success, name, secret)];
      answers := answers + [if denied then AccessDenied else TooMany];
    }

    method ConnectionLost()
      modifies this`state
      ensures state == 0
    {
      state := 0;
    }
  }

  /** The search stops at word `i` because it matches. */
  predicate FoundAt(H: bytes -> Digest, words: seq<Word>, scramble: bytes, i: nat) {
    i < |words| && Matches(H, words[i], scramble)
    && forall j :: 0 <= j < i ==> words[j].Raw? && !Matches(H, words[j], scramble)
  }

  /**
    * A client that scrambles any password with the challenge it was sent, which is the salt, succeeds exactly when the
    * user name is the configured one and some listed word, without its newlines, has the same scramble, with no text in
    * front of it. The entry then shows the first such word, and otherwise the scramble.
    */
  lemma HonestLogin(H: bytes -> Digest, text: bytes -> string, server: Server, head: bytes, username: bytes,
                    password: bytes, rest: bytes)
    requires |head| == 36 && forall i :: 0 <= i < |username| ==> username[i] != 0
    ensures var scramble := Scramble(H, password, SALT);
      var (entry, answer) := Judge(H, text, server, Frame(head, username, scramble, rest));
      entry.username == text(username)
      && (entry.success
          <==> text(username) == server.username && exists i: nat :: FoundAt(H, server.words, scramble, i))
      && (if entry.success
          then answer == TooMany && entry.secret.Known?
               && exists i: nat :: FoundAt(H, server.words, scramble, i) && server.words[i] == entry.secret.word
          else answer == AccessDenied && entry.secret == Hex(scramble))
  {
    hide ParseData, Frame, Scramble, Stripped;
    var scramble := Scramble(H, password, SALT);
    FrameIsParsed(head, username, scramble, rest);
    var n := Stop(H, server.words, scramble);
    if i: nat :| FoundAt(H, server.words, scramble, i) { StopIs(H, server.words, scramble, i); }
    if n < |server.words| && server.words[n].Raw? { assert FoundAt(H, server.words, scramble, n); }
    assert DecodeSpec(H, server.words, scramble).Some? <==> exists i: nat :: FoundAt(H, server.words, scramble, i);
  }

  /** Another word than the password does not happen to have its scramble. */
  predicate NoCollision(H: bytes -> Digest, words: seq<Word>, password: bytes) {
    forall i :: 0 <= i < |words| && words[i].Raw? && Matches(H, words[i], Scramble(H, password, SALT))
      ==> Stripped(words[i].bytes) == password
  }

  /** Without such a collision, a password is found if and only if it is a listed word without its newlines. */
  lemma FoundIsListed(H: bytes -> Digest, words: seq<Word>, password: bytes)
    requires NoCollision(H, words, password) && forall i :: 0 <= i < |words| ==> words[i].Raw?
    ensures (exists i: nat :: FoundAt(H, words, Scramble(H, password, SALT), i))
      <==> exists i :: 0 <= i < |words| && Stripped(words[i].bytes) == password
  {
    hide Scramble, Stripped;
    var scramble := Scramble(H, password, SALT);
    if i: nat :| FoundAt(H, words, scramble, i) { assert Stripped(words[i].bytes) == password; }
    if i :| 0 <= i < |words| && Stripped(words[i].bytes) == password {
      assert Matches(H, words[i], scramble);
      var n := Stop(H, words, scramble);
      assert n <= i;
      assert FoundAt(H, words, scramble, n);
    }
  }

  /** So a password that starts or ends with a newline is never found, even when it is the listed one. */
  lemma NewlineIsLost(H: bytes -> Digest, words: seq<Word>, password: bytes)
    requires NoCollision(H, words, password) && forall i :: 0 <= i < |words| ==> words[i].Raw?
    requires password != [] && (password[0] == 0x0A || password[|password| - 1] == 0x0A)
    ensures !exists i: nat :: FoundAt(H, words, Scramble(H, password, SALT), i)
  {
    FoundIsListed(H, words, password);
    forall i | 0 <= i < |words| ensures Stripped(words[i].bytes) != password {
      var a, b := StrippedIsExact(words[i].bytes);
    }
  }

  /**
    * A client with a listed password that neither starts nor ends with a newline, no text standing in front of it, and
    * the configured user name always succeeds.
    */
  lemma ListedPasswordSucceeds(H: bytes -> Digest, text: bytes -> string, server: Server, head: bytes,
                               username: bytes, password: bytes, rest: bytes, k: nat)
    requires |head| == 36 && forall i :: 0 <= i < |username| ==> username[i] != 0
    requires k < |server.words| && server.words[k] == Raw(password) && forall j :: 0 <= j < k ==> server.words[j].Raw?
    requires password != [] ==> password[0] != 0x0A && password[|password| - 1] != 0x0A
    requires text(username) == server.username
    ensures var (entry, answer) := Judge(H, text, server,
        Frame(head, username, Scramble(H, password, Ascii("12345678123456789012")), rest));
      entry.success && answer == TooMany
  {
    SaltIs();
    NothingToStrip<byte>(password, 0x0A);
    hide Ascii, SALT, Judge, Frame, Scramble, FoundAt;
    HonestLogin(H, text, server, head, username, password, rest);
    var scramble := Scramble(H, password, SALT);
    assert Matches(H, server.words[k], scramble);
    hide Matches;
    FoundInFront(H, server.words, scramble, k);
  }

  lemma FoundInFront(H: bytes -> Digest, words: seq<Word>, scramble: bytes, k: nat)
    requires k < |words| && Matches(H, words[k], scramble) && forall j :: 0 <= j < k ==> words[j].Raw?
    ensures exists i: nat :: FoundAt(H, words, scramble, i)
  {
    var n := Stop(H, words, scramble);
    assert n <= k;
    assert FoundAt(H, words, scramble, n);
  }

  /** A frame that ends behind a length of 20 is logged whole, and denied. */
  lemma CutFrame(H: bytes -> Digest, text: bytes -> string, server: Server, head: bytes, username: bytes)
    requires |head| == 36 && forall i :: 0 <= i < |username| ==> username[i] != 0
    ensures var data := head + username + [0, 20];
      Judge(H, text, server, data) == (Entry(false, text(username), Dump(data)), AccessDenied)
  {
    var data := head + username + [0, 20];
    assert Drop(data, 36) == username + [0] + [20];
    NulEnds(username, [20]);
    assert Slice(data, 36, 36 + |username|) == username;
  }

  /** A frame that is not good is logged with what was read, and answered "too many connections". */
  lemma BadFrame(H: bytes -> Digest, text: bytes -> string, server: Server, data: bytes)
    requires !ParseData(data).good
    ensures Judge(H, text, server, data)
         == (Entry(false, text(ParseData(data).username), Plain(ParseData(data).password)), TooMany)
  {
  }

  /** A login succeeds only for the configured user with a scramble of a listed word. */
  lemma SuccessIsEarned(H: bytes -> Digest, text: bytes -> string, server: Server, data: bytes)
    requires Judge(H, text, server, data).0.success
    ensures var p := ParseData(data);
      p.good && text(p.username) == server.username
      && exists i :: 0 <= i < |server.words| && Matches(H, server.words[i], p.password)
  {
    var p := ParseData(data);
    var i := Stop(H, server.words, p.password);
    assert Matches(H, server.words[i], p.password);
  }
}
