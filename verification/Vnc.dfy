/** The VNC password index and its three-message handshake. */
module Vnc {
  import opened Prelude

  // ---------- Reversing bits through text ----------

  type Bit = b: int | 0 <= b < 2

  /** The binary digits of a number, most significant first. */
  function Binary(n: nat): (r: seq<Bit>)
    ensures |r| > 0
  {
    if n < 2 then [n] else Binary(n / 2) + [n % 2]
  }

  /** `f"{n:08b}"`: at least eight digits. */
  function Padded(n: nat): (r: seq<Bit>)
    ensures |r| >= 8
  {
    var digits := Binary(n);
    if |digits| < 8 then seq(8 - |digits|, _ => 0) + digits else digits
  }

  /** `s[::-1]` */
  function Reverse<T>(s: seq<T>): (r: seq<T>)
    ensures |r| == |s|
  {
    if s == [] then [] else Reverse(s[1..]) + [s[0]]
  }

  /** `int(s, 2)` */
  function FromBinary(s: seq<Bit>): nat {
    if s == [] then 0 else 2 * FromBinary(s[..|s| - 1]) + s[|s| - 1]
  }

  function KeyByte(c: nat): nat { FromBinary(Reverse(Padded(c))) }

  /** The value of a bit with `place` bits below it. */
  function Place(b: Bit, place: nat): nat { if b == 0 then 0 else Pow2(place) }

  /** Reversing the lowest `width` bits arithmetically. */
  function ReverseBits(n: nat, width: nat): (r: nat)
    ensures r < Pow2(width)
  {
    if width == 0 then 0 else Place(n % 2, width - 1) + ReverseBits(n / 2, width - 1)
  }

  /** The digits of a number in exactly `width` places. */
  function Digits(n: nat, width: nat): (r: seq<Bit>)
    ensures |r| == width
  {
    if width == 0 then [] else Digits(n / 2, width - 1) + [n % 2]
  }

  lemma {:induction false} DigitsOfZero(width: nat)
    ensures Digits(0, width) == seq(width, _ => 0)
  {
    if width > 0 {
      DigitsOfZero(width - 1);
      assert seq(width - 1, _ => 0) + [0] == seq(width, _ => 0);
    }
  }

  lemma {:induction false} BinaryIsDigits(n: nat, width: nat)
    requires n < Pow2(width) && width > 0
    ensures |Binary(n)| <= width && Digits(n, width) == seq(width - |Binary(n)|, _ => 0) + Binary(n)
    decreases width
  {
    if n < 2 {
      DigitsOfZero(width - 1);
      assert n / 2 == 0 && n % 2 == n;
    } else {
      assert width > 1;
      BinaryIsDigits(n / 2, width - 1);
      var k := width - |Binary(n)|;
      assert seq(k, _ => 0) + (Binary(n / 2) + [n % 2]) == (seq(k, _ => 0) + Binary(n / 2)) + [n % 2];
    }
  }

  lemma {:induction false} ReverseAppend<T>(s: seq<T>, x: T)
    ensures Reverse(s + [x]) == [x] + Reverse(s)
  {
    if s == [] {
      assert s + [x] == [x] && [x][1..] == [];
    } else {
      ReverseAppend(s[1..], x);
      assert (s + [x])[1..] == s[1..] + [x];
    }
  }

  lemma {:induction false} FromBinaryCons(b: Bit, s: seq<Bit>)
    ensures FromBinary([b] + s) == Place(b, |s|) + FromBinary(s)
    decreases |s|
  {
    if s == [] {
      assert [b] + s == [b] && [b][..0] == [];
    } else {
      var init := s[..|s| - 1];
      FromBinaryCons(b, init);
      assert ([b] + s)[..|s|] == [b] + init;
    }
  }

  lemma {:induction false} ReversedDigits(n: nat, width: nat)
    ensures FromBinary(Reverse(Digits(n, width))) == ReverseBits(n, width)
    decreases width
  {
    if width > 0 {
      ReversedDigits(n / 2, width - 1);
      ReverseAppend<Bit>(Digits(n / 2, width - 1), n % 2);
      assert Digits(n, width) == Digits(n / 2, width - 1) + [n % 2];
      FromBinaryCons(n % 2, Reverse(Digits(n / 2, width - 1)));
    }
  }

  /** For a byte, reversing its eight digits as text is reversing its bits. */
  lemma KeyByteIsReversal(c: byte)
    ensures KeyByte(c) == ReverseBits(c, 8) && KeyByte(c) < 256
  {
    assert Pow2(8) == 256 by {
      assert Pow2(4) == 16;
      assert Pow2(6) == 64;
    }
    BinaryIsDigits(c, 8);
    assert Padded(c) == Digits(c, 8);
    ReversedDigits(c, 8);
  }

  /** Reversal with a new bit on top of the number. */
  lemma {:induction false} ReverseBitsTop(n: nat, b: Bit, width: nat)
    requires n < Pow2(width)
    ensures ReverseBits(Place(b, width) + n, width + 1) == 2 * ReverseBits(n, width) + b
    decreases width
  {
    if width == 0 {
      assert ReverseBits(b, 1) == Place(b % 2, 0) + ReverseBits(b / 2, 0);
    } else {
      var m := Place(b, width) + n;
      assert Place(b, width) == 2 * Place(b, width - 1);
      assert m / 2 == Place(b, width - 1) + n / 2 && m % 2 == n % 2;
      ReverseBitsTop(n / 2, b, width - 1);
    }
  }

  /** Reversing twice gives the number back. */
  lemma {:induction false} ReverseBitsTwice(n: nat, width: nat)
    requires n < Pow2(width)
    ensures ReverseBits(ReverseBits(n, width), width) == n
    decreases width
  {
    if width > 0 {
      ReverseBitsTop(ReverseBits(n / 2, width - 1), n % 2, width - 1);
      ReverseBitsTwice(n / 2, width - 1);
    }
  }

  lemma KeyByteTwice(c: byte)
    ensures KeyByte(KeyByte(c)) == c
  {
    KeyByteIsReversal(c);
    KeyByteIsReversal(KeyByte(c));
    assert Pow2(8) == 256 by {
      assert Pow2(4) == 16;
      assert Pow2(6) == 64;
    }
    ReverseBitsTwice(c, 8);
  }

  // ---------- encode ----------

  /** A word as its code points. */
  type Word = seq<nat>

  const NEWLINE: nat := 10

  /** `word.strip("\n").ljust(8, "\00")[:8]` */
  function Eight(word: Word): (r: Word)
    ensures |r| == 8
  {
    var s := StripOf<nat>(word, NEWLINE);
    if |s| >= 8 then s[..8] else s + seq(8 - |s|, _ => 0)
  }

  /** The first eight characters without the newlines around them, with NULs behind them where there are fewer. */
  lemma EightIs(word: Word) returns (a: Word, middle: Word, b: Word)
    ensures word == a + middle + b
    ensures (forall i :: 0 <= i < |a| ==> a[i] == 10) && forall i :: 0 <= i < |b| ==> b[i] == 10
    ensures middle != [] ==> middle[0] != 10 && middle[|middle| - 1] != 10
    ensures forall i :: 0 <= i < 8 ==> Eight(word)[i] == if i < |middle| then middle[i] else 0
  {
    a, b := StripIsExact<nat>(word, NEWLINE);
    middle := StripOf<nat>(word, NEWLINE);
  }

  /** A word without such newlines: its first eight characters. */
  lemma EightOfPlain(word: Word)
    requires word != [] ==> word[0] != 10 && word[|word| - 1] != 10
    ensures forall i :: 0 <= i < 8 ==> Eight(word)[i] == if i < |word| then word[i] else 0
  {
    NothingToStrip<nat>(word, NEWLINE);
  }

  function KeyBytes(s: Word): (r: seq<nat>)
    ensures |r| == |s| && forall i :: 0 <= i < |r| ==> r[i] == KeyByte(s[i])
  {
    seq(|s|, i requires 0 <= i < |s| => KeyByte(s[i]))
  }

  predicate AreBytes(s: seq<nat>) { forall i :: 0 <= i < |s| ==> s[i] < 256 }

  /** The encrypted challenge for a word; `des` encrypts the fixed challenge under a key. None is ValueError. */
  function Encode(des: bytes -> bytes, word: Word): Option<bytes> {
    var key := KeyBytes(Eight(word));
    if AreBytes(key) then Some(des(key)) else None
  }

  method EncodeWord(des: bytes -> bytes, word: Word) returns (r: Option<bytes>)
    ensures r == Encode(des, word)
  {
    var temp := Eight(word);
    var revWord: seq<nat> := [];
    for i := 0 to 8
      invariant revWord == KeyBytes(temp)[..i]
    {
      revWord := revWord + [FromBinary(Reverse(Padded(temp[i])))];
    }
    assert KeyBytes(temp)[..8] == KeyBytes(temp);
    if !AreBytes(revWord) { return None; }
    r := Some(des(revWord));
  }

  /** A word is encoded under the key of its eight characters, unless one of them reversed needs more than a byte. */
  lemma EncodeIs(des: bytes -> bytes, word: Word, key: seq<nat>)
    requires |key| == 8 && forall i :: 0 <= i < 8 ==> key[i] == KeyByte(Eight(word)[i])
    ensures if forall i :: 0 <= i < 8 ==> key[i] < 256 then Encode(des, word) == Some(des(key))
            else Encode(des, word) == None
  {
    assert KeyBytes(Eight(word)) == key;
  }

  /** Words of 8-bit characters are always encoded, under the key with every byte reversed. */
  lemma EncodeOfBytes(des: bytes -> bytes, word: Word)
    requires AreBytes(word)
    ensures Encode(des, word).Some?
    ensures AreBytes(KeyBytes(KeyBytes(Eight(word)))) && KeyBytes(KeyBytes(Eight(word))) == Eight(word)
  {
    StripKeepsBytes(word);
    var key := Eight(word);
    assert AreBytes(key);
    forall i | 0 <= i < 8 ensures KeyBytes(key)[i] < 256 && KeyBytes(KeyBytes(key))[i] == key[i] {
      KeyByteIsReversal(key[i]);
      KeyByteTwice(key[i]);
    }
  }

  lemma {:induction false} StripKeepsBytes(word: Word)
    requires AreBytes(word)
    ensures AreBytes(StripOf<nat>(word, NEWLINE))
    decreases |word|
  {
    if word != [] && word[0] == NEWLINE { StripKeepsBytes(word[1..]); }
    else if word != [] && word[|word| - 1] == NEWLINE { StripKeepsBytes(word[..|word| - 1]); }
  }

  // ---------- known_passwords ----------

  /** `{encode(w): w for w in words}`: a later word replaces an earlier one with the same encoding. */
  function Index(des: bytes -> bytes, words: seq<Word>): Option<map<bytes, Word>>
    decreases |words|
  {
    if words == [] then Some(map[])
    else
      var last := words[|words| - 1];
      match Index(des, words[..|words| - 1])
      case None => None
      case Some(index) =>
        match Encode(des, last)
        case None => None
        case Some(code) => Some(index[code := last])
  }

  function Lookup(index: map<bytes, Word>, code: bytes): Option<Word> {
    if code in index then Some(index[code]) else None
  }

  /** `w` is the last word with the encoding `code`; None if no word has it. */
  ghost predicate IsLast(des: bytes -> bytes, words: seq<Word>, code: bytes, r: Option<Word>) {
    match r
    case None => forall i :: 0 <= i < |words| ==> Encode(des, words[i]) != Some(code)
    case Some(w) => exists i :: 0 <= i < |words| && words[i] == w && Encode(des, w) == Some(code)
                                && forall j :: i < j < |words| ==> Encode(des, words[j]) != Some(code)
  }

  /** The index exists exactly when every word can be encoded. */
  lemma {:induction false} IndexIsDefined(des: bytes -> bytes, words: seq<Word>)
    ensures Index(des, words).Some? <==> forall i :: 0 <= i < |words| ==> Encode(des, words[i]).Some?
    decreases |words|
  {
    hide Encode;
    if words != [] { IndexIsDefined(des, words[..|words| - 1]); }
  }

  /** It answers like a linear search from the end. */
  lemma {:induction false} IndexIsSearch(des: bytes -> bytes, words: seq<Word>, code: bytes)
    requires Index(des, words).Some?
    ensures IsLast(des, words, code, Lookup(Index(des, words).value, code))
    decreases |words|
  {
    hide Encode, IsLast, Lookup;
    if words == [] {
      SearchNothing(des, code);
    } else {
      var init, last := words[..|words| - 1], words[|words| - 1];
      IndexIsSearch(des, init, code);
      SearchOneMore(des, init, last, Index(des, init).value, code);
      assert init + [last] == words;
    }
  }

  lemma SearchNothing(des: bytes -> bytes, code: bytes)
    ensures Index(des, []) == Some(map[]) && IsLast(des, [], code, Lookup(map[], code))
  {
  }

  lemma SearchOneMore(des: bytes -> bytes, init: seq<Word>, last: Word, index: map<bytes, Word>, code: bytes)
    requires Encode(des, last).Some? && IsLast(des, init, code, Lookup(index, code))
    ensures IsLast(des, init + [last], code, Lookup(index[Encode(des, last).value := last], code))
  {
    hide Encode;
    var words := init + [last];
    if Encode(des, last) == Some(code) {
      assert words[|init|] == last;
    } else if Lookup(index, code).Some? {
      var w := Lookup(index, code).value;
      var i :| 0 <= i < |init| && init[i] == w && Encode(des, w) == Some(code)
               && forall j :: i < j < |init| ==> Encode(des, init[j]) != Some(code);
      assert words[i] == w;
    }
  }

  // ---------- The server ----------

  const NONE_TEXT: Word := [0x4e, 0x6f, 0x6e, 0x65]

  /** The entry for a response: the text of the password, which for an unknown one is the text "None". */
  datatype Entry = Entry(success: bool, password: Word)

  function Judge(index: map<bytes, Word>, password: Word, response: bytes): Entry {
    var found := Lookup(index, response);
    var text := if found.Some? then found.value else NONE_TEXT;
    Entry(text == password, text)
  }

  /** The configured password is the last word, so its own encoding is always recognized, whatever collides with it. */
  lemma PasswordIsRecognized(des: bytes -> bytes, words: seq<Word>, password: Word)
    requires Index(des, words + [password]).Some?
    ensures Encode(des, password).Some?
    ensures Judge(Index(des, words + [password]).value, password, Encode(des, password).value) == Entry(true, password)
  {
    var all := words + [password];
    IndexIsDefined(des, all);
    assert all[|words|] == password;
    IndexIsSearch(des, all, Encode(des, password).value);
  }

  /**
    * A response is a success exactly when it is the encoding of the configured password, or when the configured
    * password is the text "None" and no known word has this encoding.
    */
  lemma SuccessIsExact(des: bytes -> bytes, words: seq<Word>, password: Word, response: bytes)
    requires Index(des, words + [password]).Some?
    ensures Judge(Index(des, words + [password]).value, password, response).success
      <==> Encode(des, password) == Some(response)
           || (password == NONE_TEXT && forall i :: 0 <= i < |words| ==> Encode(des, words[i]) != Some(response))
  {
    hide Encode, Index;
    var all := words + [password];
    IndexIsSearch(des, all, response);
    assert all[|words|] == password && forall i :: 0 <= i < |words| ==> all[i] == words[i];
    PasswordIsRecognized(des, words, password);
  }

  /** The entry shows the last word with the encoding of the response, or "None"; the configured password counts too. */
  lemma EntryShows(des: bytes -> bytes, words: seq<Word>, password: Word, response: bytes)
    requires Index(des, words + [password]).Some?
    ensures var entry := Judge(Index(des, words + [password]).value, password, response);
      (entry.success <==> entry.password == password)
      && if forall w :: w in words + [password] ==> Encode(des, w) != Some(response)
         then entry.password == Ascii("None")
         else Encode(des, entry.password) == Some(response)
              && exists i :: 0 <= i <= |words| && (words + [password])[i] == entry.password
                   && forall j :: i < j <= |words| ==> Encode(des, (words + [password])[j]) != Some(response)
  {
    hide Encode, Index;
    IndexIsSearch(des, words + [password], response);
    assert NONE_TEXT == Ascii("None");
  }

  // ---------- The handshake ----------

  const BANNER: bytes := [0x52, 0x46, 0x42, 0x20, 0x30, 0x30, 0x33, 0x2e, 0x30, 0x30, 0x38, 0x0a]
  const SECURITY: bytes := [0x01, 0x02]
  const CHALLENGE: bytes := [
    0x00, 0x00, 0x00, 0x00, 0x90, 0x12, 0x34, 0x56, 0x78, 0x90, 0x12, 0x34, 0x56, 0x78, 0x90, 0x12]

  datatype Session = Session(state: nat, log: seq<Entry>, sent: seq<bytes>, closed: bool)

  const CONNECTED := Session(1, [], [BANNER], false)

  function Receive(index: map<bytes, Word>, password: Word, s: Session, data: bytes): Session {
    if s.state == 1 then
      if data == BANNER then Session(2, s.log, s.sent + [SECURITY], s.closed) else s
    else if s.state == 2 then
      if data == [0x02] then Session(3, s.log, s.sent + [CHALLENGE], s.closed) else s
    else if s.state == 3 then s.(log := s.log + [Judge(index, password, data)], closed := true)
    else s.(closed := true)
  }

  /** A whole run; once the connection is closed nothing is delivered any more. */
  function ReceiveAll(index: map<bytes, Word>, password: Word, messages: seq<bytes>): Session {
    if messages == [] then CONNECTED
    else
      var s := ReceiveAll(index, password, messages[..|messages| - 1]);
      if s.closed then s else Receive(index, password, s, messages[|messages| - 1])
  }

  class Connection {
    const index: map<bytes, Word>
    const password: Word
    var state: nat
    var log: seq<Entry>
    var sent: seq<bytes>
    var closed: bool

    function Now(): Session
      reads this
    {
      Session(state, log, sent, closed)
    }

    constructor (index: map<bytes, Word>, password: Word)
      ensures this.index == index && this.password == password && Now() == CONNECTED
    {
      this.index, this.password := index, password;
      state, log, sent, closed := 1, [], [BANNER], false;
    }

    method HandleLogin(data: bytes)
      modifies this`log
      ensures log == old(log) + [Judge(index, password, data)]
    {
      var found := Lookup(index, data);
      var text := if found.Some? then found.value else NONE_TEXT;
      log := log + [Entry(text == password, text)];
    }

    method DataReceived(data: bytes)
      modifies this
      ensures Now() == Receive(index, password, old(Now()), data)
    {
      if state == 1 {
        if data == BANNER {
          state := 2;
          sent := sent + [SECURITY];
        }
      } else if state == 2 {
        if data == [0x02] {
          state := 3;
          sent := sent + [CHALLENGE];
        }
      } else if state == 3 {
        HandleLogin(data);
        closed := true;
      } else {
        closed := true;
      }
    }
  }

  /** In any other state, as after the connection is lost, a message only closes. */
  lemma OtherStates(index: map<bytes, Word>, password: Word, s: Session, data: bytes)
    requires s.state == 0 || s.state > 3
    ensures Receive(index, password, s, data) == Session(s.state, s.log, s.sent, true)
  {
  }

  /** The banner was answered, and later the security type: the messages at `i` and `j`. */
  ghost predicate Greeted(messages: seq<bytes>, i: nat) { i < |messages| && messages[i] == BANNER }

  ghost predicate Agreed(messages: seq<bytes>, i: nat, j: nat) {
    i < j < |messages| && messages[i] == BANNER && messages[j] == [0x02]
  }

  /**
    * Over every run at most one login is logged, and exactly then some message was the banner, a later one the
    * security type, and one more came. `RunIsJudged` says which message the entry judges.
    */
  lemma {:induction false} LoginNeedsHandshake(index: map<bytes, Word>, password: Word, messages: seq<bytes>)
    ensures var s := ReceiveAll(index, password, messages);
      1 <= s.state <= 3 && |s.log| <= 1
      && (s.state >= 2 <==> exists i: nat :: Greeted(messages, i))
      && (s.state == 3 <==> exists i: nat, j: nat :: Agreed(messages, i, j))
      && (s.closed <==> s.log != []) && (s.closed ==> s.state == 3)
      && (s.log != [] <==> exists i: nat, j: nat :: Agreed(messages, i, j) && j < |messages| - 1)
    decreases |messages|
  {
    if messages != [] {
      hide Judge;
      var n := |messages| - 1;
      var init := messages[..n];
      LoginNeedsHandshake(index, password, init);
      HandshakeExtends(messages);
    }
  }

  lemma HandshakeExtends(messages: seq<bytes>)
    requires messages != []
    ensures var n := |messages| - 1;
      var init := messages[..n];
      ((exists i: nat :: Greeted(messages, i)) <==> (exists i: nat :: Greeted(init, i)) || messages[n] == BANNER)
      && ((exists i: nat, j: nat :: Agreed(messages, i, j))
          <==> (exists i: nat, j: nat :: Agreed(init, i, j))
               || ((exists i: nat :: Greeted(init, i)) && messages[n] == [0x02]))
      && ((exists i: nat, j: nat :: Agreed(messages, i, j) && j < n) <==> exists i: nat, j: nat :: Agreed(init, i, j))
  {
    var n := |messages| - 1;
    var init := messages[..n];
    assert forall i :: 0 <= i < n ==> init[i] == messages[i];
    if i: nat :| Greeted(init, i) {
      assert Greeted(messages, i);
      if messages[n] == [0x02] { assert Agreed(messages, i, n); }
    }
    if messages[n] == BANNER { assert Greeted(messages, n); }
    if i: nat :| Greeted(messages, i) {
      if i < n { assert Greeted(init, i); }
    }
    if i: nat, j: nat :| Agreed(init, i, j) { assert Agreed(messages, i, j); }
    if i: nat, j: nat :| Agreed(messages, i, j) {
      if j < n { assert Agreed(init, i, j); } else { assert Greeted(init, i); }
    }
    if i: nat, j: nat :| Agreed(messages, i, j) && j < n { assert Agreed(init, i, j); }
  }

  /** The first `x` at or after position `from` is at `i`. */
  ghost predicate First(messages: seq<bytes>, x: bytes, from: nat, i: nat) {
    from <= i < |messages| && messages[i] == x && forall k :: from <= k < i ==> messages[k] != x
  }

  lemma {:induction false} FirstExists(messages: seq<bytes>, x: bytes, from: nat, i: nat) returns (first: nat)
    requires from <= i < |messages| && messages[i] == x
    ensures First(messages, x, from, first) && first <= i
    decreases i - from
  {
    first := from;
    if messages[from] != x { first := FirstExists(messages, x, from + 1, i); }
  }

  lemma ReceivePrefix(index: map<bytes, Word>, password: Word, messages: seq<bytes>, n: nat)
    requires n < |messages|
    ensures var s := ReceiveAll(index, password, messages[..n]);
      ReceiveAll(index, password, messages[..n + 1]) == if s.closed then s else Receive(index, password, s, messages[n])
  {
    hide Receive;
    assert messages[..n + 1][..n] == messages[..n];
  }

  lemma {:induction false} BeforeBanner(index: map<bytes, Word>, password: Word, messages: seq<bytes>, n: nat)
    requires n <= |messages| && forall k :: 0 <= k < n ==> messages[k] != BANNER
    ensures ReceiveAll(index, password, messages[..n]) == CONNECTED
  {
    if n > 0 {
      BeforeBanner(index, password, messages, n - 1);
      ReceivePrefix(index, password, messages, n - 1);
    }
  }

  lemma {:induction false} BeforeType(index: map<bytes, Word>, password: Word, messages: seq<bytes>, i: nat, n: nat)
    requires First(messages, BANNER, 0, i) && i < n <= |messages|
    requires forall k :: i < k < n ==> messages[k] != [0x02]
    ensures ReceiveAll(index, password, messages[..n]) == Session(2, [], [BANNER, SECURITY], false)
    decreases n
  {
    hide ReceiveAll;
    ReceivePrefix(index, password, messages, n - 1);
    if n == i + 1 {
      BeforeBanner(index, password, messages, i);
    } else {
      BeforeType(index, password, messages, i, n - 1);
    }
  }

  /** Closed after the message behind the security type, a connection stays as it is. */
  lemma {:induction false} AfterType(index: map<bytes, Word>, password: Word, messages: seq<bytes>,
                                     i: nat, j: nat, n: nat)
    requires First(messages, BANNER, 0, i) && First(messages, [0x02], i + 1, j) && j + 1 < n <= |messages|
    ensures ReceiveAll(index, password, messages[..n])
         == Session(3, [Judge(index, password, messages[j + 1])], [BANNER, SECURITY, CHALLENGE], true)
    decreases n
  {
    hide ReceiveAll, Judge;
    ReceivePrefix(index, password, messages, n - 1);
    if n == j + 2 {
      BeforeType(index, password, messages, i, j);
      ReceivePrefix(index, password, messages, j);
    } else {
      AfterType(index, password, messages, i, j, n - 1);
    }
  }

  /**
    * The run from outside: after the first banner and the first security type behind it, the next message is judged,
    * whatever came in between and whatever follows, and the connection is closed.
    */
  lemma RunIsJudged(index: map<bytes, Word>, password: Word, messages: seq<bytes>, i: nat, j: nat)
    requires First(messages, BANNER, 0, i) && First(messages, [0x02], i + 1, j) && j + 1 < |messages|
    ensures ReceiveAll(index, password, messages)
         == Session(3, [Judge(index, password, messages[j + 1])], [BANNER, SECURITY, CHALLENGE], true)
  {
    hide ReceiveAll, Judge;
    AfterType(index, password, messages, i, j, |messages|);
    assert messages[..|messages|] == messages;
  }

  /** The message behind the handshake is a response of a client that knows the password, or looks like one. */
  ghost predicate Responds(des: bytes -> bytes, words: seq<Word>, password: Word, messages: seq<bytes>,
                           i: nat, j: nat)
  {
    First(messages, BANNER, 0, i) && First(messages, [0x02], i + 1, j) && j + 1 < |messages|
    && (Encode(des, password) == Some(messages[j + 1])
        || (password == NONE_TEXT && forall k :: 0 <= k < |words| ==> Encode(des, words[k]) != Some(messages[j + 1])))
  }

  /** Over every run, a success is logged exactly when the message behind the handshake is such a response. */
  lemma RunSucceeds(des: bytes -> bytes, words: seq<Word>, password: Word, messages: seq<bytes>)
    requires Index(des, words + [password]).Some?
    ensures (exists e :: e in ReceiveAll(Index(des, words + [password]).value, password, messages).log && e.success)
      <==> exists i: nat, j: nat :: Responds(des, words, password, messages, i, j)
  {
    hide ReceiveAll, Judge, Encode, Index;
    var index := Index(des, words + [password]).value;
    LoginNeedsHandshake(index, password, messages);
    if ReceiveAll(index, password, messages).log != [] {
      var a: nat, b: nat :| Agreed(messages, a, b) && b < |messages| - 1;
      var i := FirstExists(messages, BANNER, 0, a);
      var j := FirstExists(messages, [0x02], i + 1, b);
      RunIsJudged(index, password, messages, i, j);
      SuccessIsExact(des, words, password, messages[j + 1]);
      assert Judge(index, password, messages[j + 1]).success ==> Responds(des, words, password, messages, i, j);
    }
    if i: nat, j: nat :| Responds(des, words, password, messages, i, j) {
      RunIsJudged(index, password, messages, i, j);
      SuccessIsExact(des, words, password, messages[j + 1]);
      assert Judge(index, password, messages[j + 1]) in ReceiveAll(index, password, messages).log;
    }
  }

  /** What is expected and sent, byte by byte. */
  lemma HandshakeBytes(index: map<bytes, Word>, password: Word, response: bytes)
    ensures var banner: bytes := Ascii("RFB 003.008\n");
      var challenge: bytes :=
        [0x00, 0x00, 0x00, 0x00, 0x90, 0x12, 0x34, 0x56, 0x78, 0x90, 0x12, 0x34, 0x56, 0x78, 0x90, 0x12];
      ReceiveAll(index, password, []).sent == [banner]
      && ReceiveAll(index, password, [banner, [0x02], response])
         == Session(3, [Judge(index, password, response)], [banner, [0x01, 0x02], challenge], true)
  {
    assert BANNER == Ascii("RFB 003.008\n");
    hide Judge, Ascii;
    ThreeMessages(index, password, response);
  }

  /** The shortest successful run: banner, security type, response. */
  lemma ThreeMessages(index: map<bytes, Word>, password: Word, response: bytes)
    ensures ReceiveAll(index, password, [BANNER, [0x02], response])
         == Session(3, [Judge(index, password, response)], [BANNER, SECURITY, CHALLENGE], true)
  {
    hide Judge, ReceiveAll;
    var m: seq<bytes> := [BANNER, [0x02], response];
    assert First(m, BANNER, 0, 0) && First(m, [0x02], 1, 1);
    RunIsJudged(index, password, m, 0, 1);
  }
}
