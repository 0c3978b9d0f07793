/** The PostgreSQL startup message and the three-message session. */
module Postgres {
  import opened Prelude

  const NUL: CodePoint := 0

  /** The names "user" and "password". */
  const USER: Text := Ascii("user")
  const PASSWORD: Text := Ascii("password")

  type Variables = map<Text, Text>

  // ---------- read_data_custom ----------

  /** `s.split("\x00")` */
  function Split(s: Text): (parts: seq<Text>)
    ensures |parts| > 0
  {
    if s == [] then [[]]
    else
      var rest := Split(s[1..]);
      if s[0] == NUL then [[]] + rest else [[s[0]] + rest[0]] + rest[1..]
  }

  /** `dict(zip(*([iter(parts)] * 2)))`: one iterator read twice per pair, an odd last part dropped, later keys win. */
  function Pair(parts: seq<Text>): Variables
    decreases |parts|
  {
    if |parts| < 2 then map[] else map[parts[0] := parts[1]] + Pair(parts[2..])
  }

  /** `s[8:-1]` */
  function Body(s: Text): Text { if |s| < 9 then [] else s[8..|s| - 1] }

  function ReadData(text: Text): Variables { Pair(Split(Body(text))) }

  /** The password: up to the first NUL after the five bytes of type and length. */
  function ReadPassword(text: Text): Text { Split(Drop(text, 5))[0] }

  // ---------- Startup messages ----------

  type Setting = KeyValue<Text, Text>

  predicate NulFree(settings: seq<Setting>) {
    forall i :: 0 <= i < |settings| ==> NUL !in settings[i].key && NUL !in settings[i].value
  }

  function Print(settings: seq<Setting>): Text {
    if settings == [] then []
    else settings[0].key + [NUL] + settings[0].value + [NUL] + Print(settings[1..])
  }

  /** A NUL-free part in front of a NUL is split off whole. */
  lemma {:induction false} SplitOff(part: Text, rest: Text)
    requires NUL !in part
    ensures Split(part + [NUL] + rest) == [part] + Split(rest)
    decreases |part|
  {
    var s := part + [NUL] + rest;
    if part == [] {
      assert s == [NUL] + rest && s[1..] == rest;
    } else {
      assert part[0] in part;
      assert s[0] == part[0] && s[1..] == part[1..] + [NUL] + rest;
      SplitOff(part[1..], rest);
      assert [part[0]] + part[1..] == part;
    }
  }

  /** Splitting and pairing printed settings gives the last-wins map; the empty part behind them is dropped. */
  lemma {:induction false} PairOfPrinted(settings: seq<Setting>)
    requires NulFree(settings)
    ensures Pair(Split(Print(settings))) == LastWins(settings)
    decreases |settings|
  {
    if settings == [] {
      assert |Split(Print(settings))| == 1;
    } else {
      var s, rest := settings[0], Print(settings[1..]);
      assert NulFree(settings[1..]);
      PairOfPrinted(settings[1..]);
      hide Split, LastWins, Print, NulFree;
      PrintCons(settings);
      SplitSetting(s, rest);
      PairCons(s.key, s.value, Split(rest));
      LastWinsCons(settings);
    }
  }

  lemma SplitSetting(s: Setting, rest: Text)
    requires NUL !in s.key && NUL !in s.value
    ensures Split(s.key + [NUL] + s.value + [NUL] + rest) == [s.key, s.value] + Split(rest)
  {
    hide Split;
    assert s.key + [NUL] + s.value + [NUL] + rest == s.key + [NUL] + (s.value + [NUL] + rest);
    SplitOff(s.key, s.value + [NUL] + rest);
    SplitOff(s.value, rest);
  }

  lemma PairCons(key: Text, value: Text, parts: seq<Text>)
    ensures Pair([key, value] + parts) == map[key := value] + Pair(parts)
  {
    assert ([key, value] + parts)[2..] == parts;
  }

  lemma PrintCons(settings: seq<Setting>)
    requires settings != []
    ensures Print(settings) == settings[0].key + [NUL] + settings[0].value + [NUL] + Print(settings[1..])
  {
  }

  lemma LastWinsCons(settings: seq<Setting>)
    requires settings != []
    ensures LastWins(settings) == map[settings[0].key := settings[0].value] + LastWins(settings[1..])
  {
  }

  /** Eight characters of length and version, the settings, and the final NUL. */
  function Startup(header: Text, settings: seq<Setting>): Text { header + Print(settings) + [NUL] }

  lemma StartupRoundTrip(header: Text, settings: seq<Setting>)
    requires |header| == 8 && NulFree(settings)
    ensures ReadData(Startup(header, settings)) == LastWins(settings)
  {
    hide Split, Pair;
    var text := Startup(header, settings);
    assert Body(text) == Print(settings);
    PairOfPrinted(settings);
  }

  /** A password message: five characters of type and length, the password and its NUL. */
  lemma PasswordRoundTrip(head: Text, password: Text, rest: Text)
    requires |head| == 5 && NUL !in password
    ensures ReadPassword(head + (password + [NUL] + rest)) == password
  {
    assert Drop(head + (password + [NUL] + rest), 5) == password + [NUL] + rest;
    SplitOff(password, rest);
  }

  /** Texts too short to hold anything. */
  lemma ShortTexts(text: Text)
    ensures |text| <= 9 ==> ReadData(text) == map[]
    ensures |text| <= 5 ==> ReadPassword(text) == []
  {
    assert |Split([])| == 1;
  }

  // ---------- The messages as bytes ----------

  const GSS_RESPONSE: byte := 112

  predicate AllEncodable(settings: seq<Setting>) {
    forall i :: 0 <= i < |settings| ==> Encodable(settings[i].key) && Encodable(settings[i].value)
  }

  /** The length of a startup message counts the whole message, that of a password message all but its type. */
  function StartupLength(settings: seq<Setting>): nat { 9 + |Utf8All(Print(settings))| }

  function PasswordLength(password: Text): nat { 5 + |Utf8All(password)| }

  /** Protocol version 3.0. */
  function StartupMessage(settings: seq<Setting>): bytes
    requires StartupLength(settings) < 0x1_0000_0000
  {
    Be32(StartupLength(settings)) + [0, 3, 0, 0] + Utf8All(Print(settings)) + [0]
  }

  function PasswordMessage(password: Text): bytes
    requires PasswordLength(password) < 0x1_0000_0000
  {
    [0x70] + Be32(PasswordLength(password)) + Utf8All(password) + [0]
  }

  /** The lengths are true. */
  lemma LengthsAreTrue(settings: seq<Setting>, password: Text)
    requires StartupLength(settings) < 0x1_0000_0000 && PasswordLength(password) < 0x1_0000_0000
    ensures StartupMessage(settings)[..4] == Be32(|StartupMessage(settings)|)
    ensures PasswordMessage(password)[1..5] == Be32(|PasswordMessage(password)| - 1)
  {
    hide Be32, Utf8All, Print;
  }

  /** The two lengths that a message below 32 kilobytes can have: one that is ASCII, and one that is not. */
  lemma ShortLength(n: nat)
    requires n < 0x8000
    ensures Be32(n) == [0, 0, n / 256, n % 256] && n / 256 < 0x80
  {
  }

  /** ASCII in front of encoded text and its NUL: decoding gives all of it back. */
  lemma AsciiInFront(utf8: bytes -> Option<Text>, head: bytes, text: Text)
    requires Strict(utf8) && Encodable(text) && forall i :: 0 <= i < |head| ==> head[i] < 0x80
    ensures utf8(head + Utf8All(text) + [0]) == Some(head + text + [NUL])
  {
    AsciiIsItself(head);
    AsciiIsItself([0]);
    Utf8Append(head, text);
    Utf8Append(head + text, [NUL]);
    hide Utf8All;
    EncodableAppend(head, text);
    EncodableAppend(head + text, [NUL]);
  }

  lemma EncodableAppend(a: Text, b: Text)
    requires Encodable(a) && Encodable(b)
    ensures Encodable(a + b)
  {
  }

  /** A length whose last byte is not ASCII, in front of anything that is not the middle of a character. */
  lemma LengthRaises(utf8: bytes -> Option<Text>, type_: bytes, n: nat, rest: bytes)
    requires Strict(utf8) && n < 0x8000 && n % 256 >= 0x80 && rest != [] && !Continues(rest[0])
    requires forall i :: 0 <= i < |type_| ==> type_[i] < 0x80
    ensures utf8(type_ + Be32(n) + rest) == None
  {
    ShortLength(n);
    var ascii := type_ + [0, 0, n / 256];
    assert type_ + Be32(n) + rest == ascii + [n % 256] + rest;
    forall s: Text ensures Utf8All(s) != ascii + [n % 256] + rest { LoneHighByte(ascii, n % 256, rest, s); }
  }

  lemma {:induction false} PrintIsEncodable(settings: seq<Setting>)
    requires AllEncodable(settings)
    ensures Encodable(Print(settings))
    decreases |settings|
  {
    if settings != [] {
      PrintIsEncodable(settings[1..]);
      var s, rest := settings[0], Print(settings[1..]);
      assert Encodable(s.key) && Encodable(s.value);
      hide Print;
      assert Encodable(s.key + [NUL] + s.value + [NUL] + rest);
      PrintCons(settings);
    }
  }

  /** A startup message below 32 kilobytes is read exactly if the last byte of its length is ASCII, or else raises. */
  lemma StartupIsDecoded(utf8: bytes -> Option<Text>, settings: seq<Setting>)
    requires Strict(utf8) && AllEncodable(settings) && NulFree(settings) && StartupLength(settings) < 0x8000
    ensures var text := utf8(StartupMessage(settings));
      if StartupLength(settings) % 256 < 0x80 then text.Some? && ReadData(text.value) == LastWins(settings)
      else text == None
  {
    hide Strict, ReadData, LastWins, Utf8All, Print, Encodable;
    var n, body := StartupLength(settings), Utf8All(Print(settings));
    ShortLength(n);
    PrintIsEncodable(settings);
    if n % 256 < 0x80 {
      var header := Be32(n) + [0, 3, 0, 0];
      AsciiInFront(utf8, header, Print(settings));
      StartupRoundTrip(header, settings);
    } else {
      assert StartupMessage(settings) == [] + Be32(n) + ([0, 3, 0, 0] + body + [0]);
      LengthRaises(utf8, [], n, [0, 3, 0, 0] + body + [0]);
    }
  }

  /** The same for a password message. */
  lemma PasswordIsDecoded(utf8: bytes -> Option<Text>, password: Text)
    requires Strict(utf8) && Encodable(password) && NUL !in password && PasswordLength(password) < 0x8000
    ensures var text := utf8(PasswordMessage(password));
      if PasswordLength(password) % 256 < 0x80 then text.Some? && ReadPassword(text.value) == password
      else text == None
  {
    FirstOfText(password);
    assert password == [] ==> Utf8All(password) == [];
    hide Strict, ReadPassword, Utf8All, Encodable;
    var n, body := PasswordLength(password), Utf8All(password);
    ShortLength(n);
    if n % 256 < 0x80 {
      var head := [GSS_RESPONSE] + Be32(n);
      AsciiInFront(utf8, head, password);
      PasswordRoundTrip(head, password, []);
      assert head + (password + [NUL] + []) == head + password + [NUL];
    } else {
      assert (body + [0])[0] == if body == [] then 0 else body[0];
      assert PasswordMessage(password) == [GSS_RESPONSE] + Be32(n) + (body + [0]);
      LengthRaises(utf8, [GSS_RESPONSE], n, body + [0]);
    }
  }

  // ---------- The session ----------

  datatype Login = Login(username: Text, password: Text)

  /** The bytes sent are not read here beyond their number; `failed` is an exception out of a handler. */
  datatype Session = Session(
    state: nat, variables: Variables, logins: seq<Login>, sent: seq<bytes>, closed: bool, failed: bool)

  const REFUSE_TLS: bytes := [0x4e]
  const ASK_PASSWORD: bytes := [0x52, 0x00, 0x00, 0x00, 0x08, 0x00, 0x00, 0x00, 0x03]

  const CONNECTED := Session(1, map[], [], [], false, false)

  /** One message; `utf8` is strict decoding, with None for UnicodeDecodeError. */
  function Receive(utf8: bytes -> Option<Text>, s: Session, data: bytes): Session {
    if s.state == 1 then s.(state := 2, sent := s.sent + [REFUSE_TLS])
    else if s.state == 2 then
      match utf8(data)
      case None => s.(failed := true)
      case Some(text) => s.(variables := ReadData(text), state := 3, sent := s.sent + [ASK_PASSWORD])
    else if s.state == 3 then
      if data == [] then s.(failed := true)
      else if data[0] != GSS_RESPONSE || USER !in s.variables then s.(closed := true)
      else
        match utf8(data)
        case None => s.(failed := true)
        case Some(text) =>
          var variables := s.variables[PASSWORD := ReadPassword(text)];
          s.(variables := variables, closed := true,
             logins := s.logins + [Login(variables[USER], variables[PASSWORD])])
    else s.(closed := true)
  }

  /** A whole run; nothing is delivered after the connection is closed or a handler failed. */
  function ReceiveAll(utf8: bytes -> Option<Text>, messages: seq<bytes>): Session {
    if messages == [] then CONNECTED
    else
      var s := ReceiveAll(utf8, messages[..|messages| - 1]);
      if s.closed || s.failed then s else Receive(utf8, s, messages[|messages| - 1])
  }

  class Connection {
    var state: nat
    var variables: Variables
    var logins: seq<Login>
    var sent: seq<bytes>
    var closed: bool
    var failed: bool

    function Now(): Session
      reads this
    {
      Session(state, variables, logins, sent, closed, failed)
    }

    constructor ()
      ensures Now() == CONNECTED
    {
      state, variables, logins, sent, closed, failed := 1, map[], [], [], false, false;
    }

    method ReadDataCustom(text: Text)
      modifies this`variables
      ensures variables == ReadData(text)
    {
      variables := Pair(Split(Body(text)));
    }

    method ReadPasswordCustom(text: Text)
      modifies this`variables
      ensures variables == old(variables)[PASSWORD := ReadPassword(text)]
    {
      variables := variables[PASSWORD := Split(Drop(text, 5))[0]];
    }

    method DataReceived(utf8: bytes -> Option<Text>, data: bytes)
      modifies this
      ensures Now() == Receive(utf8, old(Now()), data)
    {
      if state == 1 {
        state := 2;
        sent := sent + [REFUSE_TLS];
      } else if state == 2 {
        var text := utf8(data);
        if text == None {
          failed := true;
          return;
        }
        ReadDataCustom(text.value);
        state := 3;
        sent := sent + [ASK_PASSWORD];
      } else if state == 3 {
        if data == [] {
          failed := true;
          return;
        }
        if data[0] == GSS_RESPONSE && USER in variables {
          var text := utf8(data);
          if text == None {
            failed := true;
            return;
          }
          ReadPasswordCustom(text.value);
          logins := logins + [Login(variables[USER], variables[PASSWORD])];
        }
        closed := true;
      } else {
        closed := true;
      }
    }

    method ConnectionLost()
      modifies this`state, this`variables
      ensures state == 1 && variables == map[]
    {
      state, variables := 1, map[];
    }
  }

  /** In any other state a message only closes, and an empty third message raises. */
  lemma OtherStates(utf8: bytes -> Option<Text>, s: Session, data: bytes)
    ensures s.state == 0 || s.state > 3 ==> Receive(utf8, s, data) == s.(closed := true)
    ensures s.state == 3 ==> Receive(utf8, s, []) == s.(failed := true)
  {
  }

  /** The settings of the second message. */
  function SecondMessage(utf8: bytes -> Option<Text>, messages: seq<bytes>): Option<Variables> {
    if |messages| < 2 then None
    else
      match utf8(messages[1])
      case None => None
      case Some(text) => Some(ReadData(text))
  }

  /** The one login a run can make. */
  function LoginOf(utf8: bytes -> Option<Text>, messages: seq<bytes>): seq<Login> {
    match SecondMessage(utf8, messages)
    case None => []
    case Some(settings) =>
      if |messages| < 3 || messages[2] == [] || messages[2][0] != GSS_RESPONSE || USER !in settings then []
      else
        match utf8(messages[2])
        case None => []
        case Some(text) => [Login(settings[USER], ReadPassword(text))]
  }

  /**
    * Over every run there is at most one login, made by the third message, with the user of the second message
    * and the password of the third.
    */
  lemma {:induction false} AtMostOneLogin(utf8: bytes -> Option<Text>, messages: seq<bytes>)
    ensures var s := ReceiveAll(utf8, messages);
      s.logins == LoginOf(utf8, messages)
      && (|messages| >= 3 ==> s.closed || s.failed)
      && (|messages| == 2 && !s.failed ==>
            !s.closed && s.state == 3 && SecondMessage(utf8, messages) == Some(s.variables))
      && (s.failed && |messages| == 2 ==> SecondMessage(utf8, messages) == None)
      && (|messages| == 1 ==> s == Session(2, map[], [], [REFUSE_TLS], false, false))
    decreases |messages|
  {
    if messages != [] {
      hide ReadData, ReadPassword;
      var n := |messages| - 1;
      var init := messages[..n];
      AtMostOneLogin(utf8, init);
      if n >= 3 {
        assert LoginOf(utf8, init) == LoginOf(utf8, messages);
      } else if n == 2 {
        assert SecondMessage(utf8, init) == SecondMessage(utf8, messages);
      }
    }
  }

  /**
    * A client that follows version 3.0 of the protocol, with settings and a password free of NUL and messages below
    * 32 kilobytes, is logged in with its last "user" setting and its password if and only if the last byte of both
    * lengths is below 128, since the lengths are decoded as text. Otherwise there is no login.
    */
  lemma HonestLogin(utf8: bytes -> Option<Text>, tls: bytes, settings: seq<Setting>, k: nat, password: Text)
    requires Strict(utf8) && AllEncodable(settings) && NulFree(settings) && StartupLength(settings) < 0x8000
    requires Encodable(password) && NUL !in password && PasswordLength(password) < 0x8000
    requires k < |settings| && settings[k].key == Ascii("user")
    requires forall j :: k < j < |settings| ==> settings[j].key != Ascii("user")
    ensures ReceiveAll(utf8, [tls, StartupMessage(settings), PasswordMessage(password)]).logins
         == if StartupLength(settings) % 256 < 0x80 && PasswordLength(password) % 256 < 0x80
            then [Login(settings[k].value, password)] else []
  {
    hide ReadData, ReadPassword, ReceiveAll, Strict, StartupMessage, StartupLength, PasswordLength, NulFree;
    var messages := [tls, StartupMessage(settings), PasswordMessage(password)];
    AtMostOneLogin(utf8, messages);
    StartupIsDecoded(utf8, settings);
    PasswordIsDecoded(utf8, password);
    LastWinsIsLast(settings, k);
    assert messages[2] != [] && messages[2][0] == GSS_RESPONSE;
    hide PasswordMessage, LastWins;
    var text := utf8(messages[1]);
    assert SecondMessage(utf8, messages) == if text.None? then None else Some(ReadData(text.value));
    assert LoginOf(utf8, messages) == if text.None? || utf8(messages[2]).None? then []
      else [Login(settings[k].value, ReadPassword(utf8(messages[2]).value))];
  }

  /** A run whose second message is a startup message with such a length logs nobody in, whatever follows. */
  lemma LongStartupIsLost(utf8: bytes -> Option<Text>, messages: seq<bytes>, settings: seq<Setting>)
    requires Strict(utf8) && AllEncodable(settings) && NulFree(settings)
    requires StartupLength(settings) < 0x8000 && StartupLength(settings) % 256 >= 0x80
    requires |messages| >= 2 && messages[1] == StartupMessage(settings)
    ensures ReceiveAll(utf8, messages).logins == []
  {
    hide ReceiveAll, Strict, StartupMessage, StartupLength;
    AtMostOneLogin(utf8, messages);
    StartupIsDecoded(utf8, settings);
  }

  /** What is sent in every run: "N" for the first message, the password request for a second one that is decoded. */
  lemma {:induction false} SentIs(utf8: bytes -> Option<Text>, messages: seq<bytes>)
    ensures ReceiveAll(utf8, messages).sent
         == if messages == [] then []
            else if |messages| == 1 || utf8(messages[1]).None? then [Ascii("N")]
            else [Ascii("N"), [0x52, 0x00, 0x00, 0x00, 0x08, 0x00, 0x00, 0x00, 0x03]]
    decreases |messages|
  {
    if messages != [] {
      hide ReadData, ReadPassword;
      SentIs(utf8, messages[..|messages| - 1]);
      AtMostOneLogin(utf8, messages[..|messages| - 1]);
      assert REFUSE_TLS == Ascii("N");
    }
  }

  /** A third message of another type than 0x70, or without a user, closes the connection without a login. */
  lemma OtherThirdMessage(utf8: bytes -> Option<Text>, messages: seq<bytes>)
    requires |messages| == 3 && utf8(messages[1]).Some? && messages[2] != []
    requires messages[2][0] != 0x70 || Ascii("user") !in ReadData(utf8(messages[1]).value)
    ensures var s := ReceiveAll(utf8, messages); s.logins == [] && s.closed && !s.failed
  {
    hide ReadData, ReadPassword;
    var init := messages[..2];
    AtMostOneLogin(utf8, init);
    AtMostOneLogin(utf8, messages);
    assert ReceiveAll(utf8, messages) == Receive(utf8, ReceiveAll(utf8, init), messages[2]);
  }

  /** So a user name of 113 to 240 ASCII characters, sent alone, is never logged in. */
  lemma LongUserIsLost(utf8: bytes -> Option<Text>, messages: seq<bytes>, name: bytes)
    requires Strict(utf8) && 113 <= |name| <= 240 && forall i :: 0 <= i < |name| ==> 1 <= name[i] < 0x80
    requires StartupLength([KeyValue(USER, name)]) < 0x1_0000_0000
    requires |messages| >= 2 && messages[1] == StartupMessage([KeyValue(USER, name)])
    ensures ReceiveAll(utf8, messages).logins == []
  {
    var settings := [KeyValue(USER, name)];
    hide ReceiveAll, Strict, StartupMessage;
    AsciiIsItself(name);
    LengthOfOne(name);
    LongStartupIsLost(utf8, messages, settings);
  }

  lemma LengthOfOne(name: bytes)
    requires forall i :: 0 <= i < |name| ==> 1 <= name[i] < 0x80
    ensures StartupLength([KeyValue(USER, name)]) == 15 + |name|
  {
    var settings: seq<Setting> := [KeyValue(USER, name)];
    var text: bytes := USER + [0] + name + [0];
    PrintCons(settings);
    assert settings[1..] == [] && Print([]) == [];
    hide Utf8All;
    assert |USER| == 4;
    assert Print(settings) == text;
    AsciiIsItself(text);
    assert |text| == 6 + |name|;
  }
}
