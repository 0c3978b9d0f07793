/** The interactive line reader over arbitrary chunks, and its escape-sequence stripper. */
module Ssh {
  import opened Prelude

  const CTRL_C: byte := 0x03
  const CTRL_D: byte := 0x04
  const ESC: byte := 0x1B
  const CR: byte := 0x0D
  const LF: byte := 0x0A

  // ---------- ANSI_REGEX ----------

  predicate IsFe(b: byte) { 0x40 <= b <= 0x5F }
  predicate IsC1(b: byte) { 0x80 <= b <= 0x9F }
  predicate IsParameter(b: byte) { 0x30 <= b <= 0x3F }
  predicate IsIntermediate(b: byte) { 0x20 <= b <= 0x2F }
  predicate IsFinal(b: byte) { 0x40 <= b <= 0x7E }

  /** The length of `(?:\x1B[@-_]|[\x80-\x9F])` at the front, or 0. */
  function Introducer(s: bytes): nat {
    if |s| >= 2 && s[0] == ESC && IsFe(s[1]) then 2
    else if |s| >= 1 && IsC1(s[0]) then 1
    else 0
  }

  predicate AllIn(s: bytes, lo: nat, hi: nat, kind: byte -> bool)
    requires lo <= hi <= |s|
  {
    forall i :: lo <= i < hi ==> kind(s[i])
  }

  /** The language of the whole expression. */
  ghost predicate IsSequence(t: bytes) {
    Introducer(t) > 0 && |t| > Introducer(t) && IsFinal(t[|t| - 1])
    && exists p :: Introducer(t) <= p <= |t| - 1
                   && AllIn(t, Introducer(t), p, IsParameter) && AllIn(t, p, |t| - 1, IsIntermediate)
  }

  function Count(s: bytes, kind: byte -> bool): (n: nat)
    ensures n <= |s| && AllIn(s, 0, n, kind)
    ensures n < |s| ==> !kind(s[n])
  {
    if s == [] || !kind(s[0]) then 0 else 1 + Count(s[1..], kind)
  }

  /** The length of the match at the front, or 0: take all parameters, then all intermediates, then one final byte. */
  function MatchLength(s: bytes): (n: nat)
    ensures n <= |s|
  {
    var k := Introducer(s);
    if k == 0 then 0
    else
      var p := k + Count(s[k..], IsParameter);
      var q := p + Count(s[p..], IsIntermediate);
      if q < |s| && IsFinal(s[q]) then q + 1 else 0
  }

  lemma MatchParts(s: bytes)
    requires Introducer(s) > 0
    ensures var k := Introducer(s);
      var p := k + Count(s[k..], IsParameter);
      var q := p + Count(s[p..], IsIntermediate);
      k <= p <= q <= |s| && AllIn(s, k, p, IsParameter) && AllIn(s, p, q, IsIntermediate)
      && (p < |s| ==> !IsParameter(s[p])) && (q < |s| ==> !IsIntermediate(s[q]))
  {
    var k := Introducer(s);
    var p := k + Count(s[k..], IsParameter);
    var q := p + Count(s[p..], IsIntermediate);
    forall i | k <= i < p ensures IsParameter(s[i]) { assert s[k..][i - k] == s[i]; }
    forall i | p <= i < q ensures IsIntermediate(s[i]) { assert s[p..][i - p] == s[i]; }
  }

  /** At most one prefix of a string is a sequence, and greedy matching finds it. */
  lemma MatchIsTheSequence(s: bytes, n: nat)
    requires n <= |s|
    ensures IsSequence(s[..n]) <==> n > 0 && n == MatchLength(s)
  {
    hide IsSequence, AllIn, Count;
    if Introducer(s) > 0 {
      MatchParts(s);
      var p := Introducer(s) + Count(s[Introducer(s)..], IsParameter);
      var q := p + Count(s[p..], IsIntermediate);
      if n > 0 && n == MatchLength(s) { MatchIsSequence(s, p, q); }
      if IsSequence(s[..n]) { SequenceIsMatch(s, n, p, q); }
    } else if IsSequence(s[..n]) {
      SequenceStarts(s, n);
    }
  }

  lemma SequenceStarts(s: bytes, n: nat)
    requires n <= |s| && IsSequence(s[..n])
    ensures n > 0 && Introducer(s) > 0
  {
  }

  lemma MatchIsSequence(s: bytes, p: nat, q: nat)
    requires 0 < Introducer(s) <= p <= q < |s| && IsFinal(s[q])
    requires AllIn(s, Introducer(s), p, IsParameter) && AllIn(s, p, q, IsIntermediate)
    ensures IsSequence(s[..q + 1])
  {
    var t := s[..q + 1];
    assert Introducer(t) == Introducer(s);
    assert AllIn(t, Introducer(t), p, IsParameter) && AllIn(t, p, |t| - 1, IsIntermediate);
  }

  lemma SequenceIsMatch(s: bytes, n: nat, p: nat, q: nat)
    requires n <= |s| && IsSequence(s[..n]) && Introducer(s) <= p <= q <= |s|
    requires AllIn(s, Introducer(s), p, IsParameter) && AllIn(s, p, q, IsIntermediate)
    requires (p < |s| ==> !IsParameter(s[p])) && (q < |s| ==> !IsIntermediate(s[q]))
    ensures n == q + 1 && IsFinal(s[q])
  {
    var t := s[..n];
    var k := Introducer(t);
    var r :| k <= r <= |t| - 1 && AllIn(t, k, r, IsParameter) && AllIn(t, r, |t| - 1, IsIntermediate);
    assert k == Introducer(s);
    assert forall i :: 0 <= i < n ==> t[i] == s[i];
    assert IsFinal(s[n - 1]);
    assert t[r] == s[r];
    if p < n { assert t[p] == s[p]; }
    if q < n { assert t[q] == s[q]; }
  }

  /** An escape sequence, byte by byte: one of two introductions, parameters, intermediate bytes and one final byte. */
  lemma SequenceBytes(start: bytes, parameters: bytes, middle: bytes, last: byte)
    requires (|start| == 2 && start[0] == 0x1B && 0x40 <= start[1] <= 0x5F)
             || (|start| == 1 && 0x80 <= start[0] <= 0x9F)
    requires forall i :: 0 <= i < |parameters| ==> 0x30 <= parameters[i] <= 0x3F
    requires forall i :: 0 <= i < |middle| ==> 0x20 <= middle[i] <= 0x2F
    requires 0x40 <= last <= 0x7E
    ensures IsSequence(start + parameters + middle + [last])
  {
    var t := start + parameters + middle + [last];
    var p := |start| + |parameters|;
    assert t[0] == start[0] && (|start| == 2 ==> t[1] == start[1]);
    assert Introducer(t) == |start|;
    assert AllIn(t, |start|, p, IsParameter) && AllIn(t, p, |t| - 1, IsIntermediate);
  }

  /** And nothing else is one. */
  lemma SequenceParts(t: bytes) returns (start: bytes, parameters: bytes, middle: bytes, last: byte)
    requires IsSequence(t)
    ensures t == start + parameters + middle + [last]
    ensures (|start| == 2 && start[0] == 0x1B && 0x40 <= start[1] <= 0x5F)
            || (|start| == 1 && 0x80 <= start[0] <= 0x9F)
    ensures forall i :: 0 <= i < |parameters| ==> 0x30 <= parameters[i] <= 0x3F
    ensures forall i :: 0 <= i < |middle| ==> 0x20 <= middle[i] <= 0x2F
    ensures 0x40 <= last <= 0x7E
  {
    var k, n := Introducer(t), |t| - 1;
    var p :| k <= p <= n && AllIn(t, k, p, IsParameter) && AllIn(t, p, n, IsIntermediate);
    start, parameters, middle, last := t[..k], t[k..p], t[p..n], t[n];
    forall i | 0 <= i < |parameters| ensures IsParameter(parameters[i]) { assert IsParameter(t[k + i]); }
    forall i | 0 <= i < |middle| ensures IsIntermediate(middle[i]) { assert IsIntermediate(t[p + i]); }
    assert IsFinal(t[n]);
  }

  /** `ANSI_REGEX.sub(b"", s)` */
  function Clean(s: bytes): bytes
    decreases |s|
  {
    if s == [] then []
    else
      var n := MatchLength(s);
      if n > 0 then Clean(s[n..]) else [s[0]] + Clean(s[1..])
  }

  /** Bytes that cannot start a sequence. */
  predicate IsPlain(s: bytes) { forall i :: 0 <= i < |s| ==> s[i] != ESC && !IsC1(s[i]) }

  lemma PlainBytes(s: bytes)
    ensures IsPlain(s) <==> forall i :: 0 <= i < |s| ==> s[i] != 0x1B && (s[i] < 0x80 || s[i] > 0x9F)
  {
  }

  lemma NoMatchAtPlain(s: bytes)
    requires s != [] && s[0] != ESC && !IsC1(s[0])
    ensures MatchLength(s) == 0
  {
  }

  lemma CleanPlainByte(b: byte, rest: bytes)
    requires b != ESC && !IsC1(b)
    ensures Clean([b] + rest) == [b] + Clean(rest)
  {
    hide MatchLength;
    NoMatchAtPlain([b] + rest);
    assert ([b] + rest)[1..] == rest;
  }

  /** A plain prefix is kept, and what follows it is cleaned on its own. */
  lemma {:induction false} CleanAfterPlain(plain: bytes, rest: bytes)
    requires IsPlain(plain)
    ensures Clean(plain + rest) == plain + Clean(rest)
    decreases |plain|
  {
    hide Clean, IsC1;
    if plain == [] {
      assert plain + rest == rest;
    } else {
      CleanPlainByte(plain[0], plain[1..] + rest);
      CleanAfterPlain(plain[1..], rest);
      assert plain + rest == [plain[0]] + (plain[1..] + rest);
    }
  }

  /** A complete sequence is dropped, whatever follows it. */
  lemma CleanAfterSequence(t: bytes, rest: bytes)
    requires IsSequence(t)
    ensures Clean(t + rest) == Clean(rest)
  {
    assert (t + rest)[..|t|] == t;
    MatchIsTheSequence(t + rest, |t|);
    assert (t + rest)[|t|..] == rest;
  }

  /** Plain text with complete sequences in it, each after a plain segment. */
  datatype Segment = Segment(plain: bytes, sequence: bytes)

  function Joined(segments: seq<Segment>, last: bytes): bytes {
    if segments == [] then last
    else segments[0].plain + segments[0].sequence + Joined(segments[1..], last)
  }

  function PlainPart(segments: seq<Segment>, last: bytes): bytes {
    if segments == [] then last else segments[0].plain + PlainPart(segments[1..], last)
  }

  /** Cleaning interleaved text gives its plain segments in order. */
  lemma {:induction false} CleanOfSegments(segments: seq<Segment>, last: bytes)
    requires forall i :: 0 <= i < |segments| ==> IsPlain(segments[i].plain) && IsSequence(segments[i].sequence)
    requires IsPlain(last)
    ensures Clean(Joined(segments, last)) == PlainPart(segments, last)
    decreases |segments|
  {
    if segments == [] {
      CleanAfterPlain(last, []);
      assert last + [] == last && Clean([]) == [];
    } else {
      var s, rest := segments[0], Joined(segments[1..], last);
      assert Joined(segments, last) == s.plain + (s.sequence + rest);
      CleanAfterPlain(s.plain, s.sequence + rest);
      CleanAfterSequence(s.sequence, rest);
      CleanOfSegments(segments[1..], last);
    }
  }

  /** `a` is obtained from `b` by deleting bytes. */
  predicate Subsequence(a: bytes, b: bytes) {
    if a == [] then true
    else if b == [] then false
    else if a[0] == b[0] && Subsequence(a[1..], b[1..]) then true
    else Subsequence(a, b[1..])
  }

  lemma {:induction false} SubsequenceSkip(a: bytes, b: bytes, n: nat)
    requires n <= |b| && Subsequence(a, b[n..])
    ensures Subsequence(a, b)
  {
    if n > 0 {
      assert b[1..][n - 1..] == b[n..];
      SubsequenceSkip(a, b[1..], n - 1);
    } else {
      assert b[0..] == b;
    }
  }

  lemma {:induction false} CleanIsSubsequence(s: bytes)
    ensures Subsequence(Clean(s), s)
    decreases |s|
  {
    if s != [] {
      var n := MatchLength(s);
      if n > 0 {
        CleanIsSubsequence(s[n..]);
        SubsequenceSkip(Clean(s), s, n);
      } else {
        CleanIsSubsequence(s[1..]);
        assert Clean(s)[1..] == Clean(s[1..]);
      }
    }
  }

  // ---------- _receive_line ----------

  predicate Terminated(line: bytes) { line != [] && line[|line| - 1] in {CR, LF, CTRL_C} }

  /** `s.strip()` */
  predicate IsSpace(b: byte) { b == 0x20 || 0x09 <= b <= 0x0D }

  function LeftStrip(s: bytes): bytes {
    if s != [] && IsSpace(s[0]) then LeftStrip(s[1..]) else s
  }

  function RightStrip(s: bytes): bytes {
    if s != [] && IsSpace(s[|s| - 1]) then RightStrip(s[..|s| - 1]) else s
  }

  function Strip(s: bytes): bytes { RightStrip(LeftStrip(s)) }

  datatype Result = Line(text: bytes) | Eof | Timeout

  class Channel {
    /** The chunks still to be received; a read after the last one times out. */
    var incoming: seq<bytes>
    var sent: seq<bytes>

    constructor (incoming: seq<bytes>)
      ensures this.incoming == incoming && sent == []
    {
      this.incoming, sent := incoming, [];
    }

    method Recv() returns (chunk: Option<bytes>)
      modifies this`incoming
      ensures if old(incoming) == [] then chunk == None && incoming == []
              else chunk == Some(old(incoming)[0]) && incoming == old(incoming)[1..]
    {
      if incoming == [] { return None; }
      chunk := Some(incoming[0]);
      incoming := incoming[1..];
    }

    method Send(data: bytes)
      modifies this`sent
      ensures sent == old(sent) + [data]
    {
      sent := sent + [data];
    }

    /** `_receive_line` */
    method ReceiveLine() returns (r: Result)
      modifies this
      ensures r == Read([], old(incoming)).result
      ensures incoming == old(incoming)[Read([], old(incoming)).used..]
      ensures sent == old(sent) + Read([], old(incoming)).sent
    {
      hide Read, Terminated, Clean, Strip, Kept, Echo;
      var line: bytes := [];
      ghost var whole := Read([], incoming);
      ghost var done := 0;
      while !Terminated(line)
        invariant done <= |old(incoming)| && incoming == old(incoming)[done..]
        invariant Read(line, incoming).result == whole.result
        invariant done + Read(line, incoming).used == whole.used
        invariant sent + Read(line, incoming).sent == old(sent) + whole.sent
        decreases |incoming|
      {
        ghost var chunks, before := incoming, line;
        ReadStep(line, chunks);
        var recv := Recv();
        if recv == None { return Timeout; }
        var chunk := recv.value;
        done := done + 1;
        if chunk == [] || chunk == [CTRL_D] {
          Send(EOF_ECHO);
          return Eof;
        }
        if chunk == [CTRL_C] {
          Send(INTERRUPT_ECHO);
        } else if chunk == [CR] {
          Send([LF]);
        } else if ESC in chunk {
          chunk := Clean(chunk);
        }
        if chunk != [] {
          line := line + chunk;
          Send(chunk);
        }
        KeptAndSent(chunks[0]);
        assert line == before + Kept(chunks[0]);
      }
      ReadStep(line, incoming);
      r := Line(Strip(line));
    }
  }

  lemma KeptAndSent(chunk: bytes)
    ensures Kept(chunk) == if ESC in chunk then Clean(chunk) else chunk
    ensures Echo(chunk) == (if chunk == [CTRL_C] then [INTERRUPT_ECHO] else if chunk == [CR] then [[LF]] else [])
                           + (if Kept(chunk) != [] then [Kept(chunk)] else [])
  {
  }

  /** One step of the recursion. */
  lemma ReadStep(line: bytes, chunks: seq<bytes>)
    ensures var r := Read(line, chunks);
      if Terminated(line) then r == Reading(Line(Strip(line)), 0, [])
      else if chunks == [] then r == Reading(Timeout, 0, [])
      else if IsEof(chunks[0]) then r == Reading(Eof, 1, [EOF_ECHO])
      else
        var rest := Read(line + Kept(chunks[0]), chunks[1..]);
        r == Reading(rest.result, rest.used + 1, Echo(chunks[0]) + rest.sent)
  {
  }

  const EOF_ECHO: bytes := [0x5E, 0x44, CR, LF]
  const INTERRUPT_ECHO: bytes := [0x5E, 0x43, CR, LF]

  predicate IsEof(chunk: bytes) { chunk == [] || chunk == [CTRL_D] }

  /** What a chunk adds to the line. */
  function Kept(chunk: bytes): bytes { if ESC in chunk then Clean(chunk) else chunk }

  /** What is sent back for a chunk. */
  function Echo(chunk: bytes): seq<bytes> {
    (if chunk == [CTRL_C] then [INTERRUPT_ECHO] else if chunk == [CR] then [[LF]] else [])
    + (if Kept(chunk) != [] then [Kept(chunk)] else [])
  }

  /** The result, how many chunks were received and what was sent. */
  datatype Reading = Reading(result: Result, used: nat, sent: seq<bytes>)

  /** The loop as a recursive function over the chunks to come. */
  function Read(line: bytes, chunks: seq<bytes>): (r: Reading)
    ensures r.used <= |chunks|
    decreases |chunks|
  {
    if Terminated(line) then Reading(Line(Strip(line)), 0, [])
    else if chunks == [] then Reading(Timeout, 0, [])
    else if IsEof(chunks[0]) then Reading(Eof, 1, [EOF_ECHO])
    else
      var rest := Read(line + Kept(chunks[0]), chunks[1..]);
      Reading(rest.result, rest.used + 1, Echo(chunks[0]) + rest.sent)
  }

  // ---------- What a line is ----------

  function AllKept(chunks: seq<bytes>): bytes {
    if chunks == [] then [] else AllKept(chunks[..|chunks| - 1]) + Kept(chunks[|chunks| - 1])
  }

  function AllEchoes(chunks: seq<bytes>): seq<bytes> {
    if chunks == [] then [] else AllEchoes(chunks[..|chunks| - 1]) + Echo(chunks[|chunks| - 1])
  }

  /** The first `n` chunks are ordinary and none of the prefixes before `n` completes a line. */
  ghost predicate Pending(chunks: seq<bytes>, n: nat)
    requires n <= |chunks|
  {
    forall k :: 0 <= k < n ==> !IsEof(chunks[k]) && !Terminated(AllKept(chunks[..k]))
  }

  /** The line is complete after exactly `n` chunks. */
  ghost predicate Completes(chunks: seq<bytes>, n: nat) {
    n <= |chunks| && Pending(chunks, n) && Terminated(AllKept(chunks[..n]))
  }

  /** The end of input is met in chunk `n`. */
  ghost predicate Ends(chunks: seq<bytes>, n: nat) {
    n < |chunks| && Pending(chunks, n) && !Terminated(AllKept(chunks[..n])) && IsEof(chunks[n])
  }

  lemma TakeOneMore(chunks: seq<bytes>, n: nat)
    requires n < |chunks|
    ensures AllKept(chunks[..n + 1]) == AllKept(chunks[..n]) + Kept(chunks[n])
    ensures AllEchoes(chunks[..n + 1]) == AllEchoes(chunks[..n]) + Echo(chunks[n])
  {
    assert chunks[..n + 1][..n] == chunks[..n];
  }

  /** What reading on after `n` pending chunks gives. */
  ghost predicate ReadsOn(chunks: seq<bytes>, n: nat, r: Reading)
    requires n <= |chunks| && n + r.used <= |chunks|
  {
    var m := n + r.used;
    match r.result
    case Line(text) => Completes(chunks, m) && text == Strip(AllKept(chunks[..m]))
                       && AllEchoes(chunks[..n]) + r.sent == AllEchoes(chunks[..m])
    case Eof => m > 0 && Ends(chunks, m - 1)
                && AllEchoes(chunks[..n]) + r.sent == AllEchoes(chunks[..m - 1]) + [EOF_ECHO]
    case Timeout => m == |chunks| && Pending(chunks, m) && !Terminated(AllKept(chunks))
                    && AllEchoes(chunks[..n]) + r.sent == AllEchoes(chunks)
  }

  lemma ReadsOnStep(chunks: seq<bytes>, n: nat, rest: Reading)
    requires n < |chunks| && n + 1 + rest.used <= |chunks| && ReadsOn(chunks, n + 1, rest)
    ensures ReadsOn(chunks, n, Reading(rest.result, rest.used + 1, Echo(chunks[n]) + rest.sent))
  {
    hide Terminated, Echo, Kept, AllKept, AllEchoes, IsEof, Strip, Completes, Ends, Pending;
    TakeOneMore(chunks, n);
    assert AllEchoes(chunks[..n]) + (Echo(chunks[n]) + rest.sent) == AllEchoes(chunks[..n + 1]) + rest.sent;
  }

  lemma ReadsOnStops(chunks: seq<bytes>, n: nat, r: Reading)
    requires n <= |chunks| && Pending(chunks, n) && r.used <= 1 && n + r.used <= |chunks|
    requires match r.result
      case Line(text) => r.used == 0 && Terminated(AllKept(chunks[..n]))
                         && text == Strip(AllKept(chunks[..n])) && r.sent == []
      case Eof => r.used == 1 && !Terminated(AllKept(chunks[..n])) && IsEof(chunks[n]) && r.sent == [EOF_ECHO]
      case Timeout => n == |chunks| && !Terminated(AllKept(chunks[..n])) && r.sent == []
    ensures ReadsOn(chunks, n, r)
  {
    hide Terminated, AllKept, AllEchoes, IsEof, Strip;
    assert n == |chunks| ==> chunks[..n] == chunks;
    assert AllEchoes(chunks[..n]) + [] == AllEchoes(chunks[..n]);
  }

  /** Reading on after `n` pending chunks. */
  lemma {:induction false} ReadFrom(chunks: seq<bytes>, n: nat)
    requires n <= |chunks| && Pending(chunks, n)
    ensures ReadsOn(chunks, n, Read(AllKept(chunks[..n]), chunks[n..]))
    decreases |chunks| - n
  {
    hide Terminated, Echo, Kept, AllKept, AllEchoes, IsEof, Strip, ReadsOn, Read;
    var line := AllKept(chunks[..n]);
    var r := Read(line, chunks[n..]);
    ReadStep(line, chunks[n..]);
    if Terminated(line) || n == |chunks| || IsEof(chunks[n]) {
      ReadsOnStops(chunks, n, r);
    } else {
      TakeOneMore(chunks, n);
      assert chunks[n..][1..] == chunks[n + 1..];
      ReadFrom(chunks, n + 1);
      ReadsOnStep(chunks, n, Read(AllKept(chunks[..n + 1]), chunks[n + 1..]));
    }
  }

  /**
    * A line is returned exactly when some prefix of the chunks completes it: it is then the stripped text of the
    * first such prefix, and what was sent is the echo of those chunks.
    */
  lemma LineIsFirstCompletePrefix(chunks: seq<bytes>, n: nat)
    ensures var r := Read([], chunks);
      (r.result.Line? && r.used == n <==> Completes(chunks, n))
      && (Completes(chunks, n) ==> r.result == Line(Strip(AllKept(chunks[..n]))) && r.sent == AllEchoes(chunks[..n]))
  {
    assert chunks[..0] == [] && chunks[0..] == chunks;
    ReadFrom(chunks, 0);
    var r := Read([], chunks);
    assert [] + r.sent == r.sent;
    if Completes(chunks, n) { OneStop(chunks, n, r); }
  }

  lemma OneStop(chunks: seq<bytes>, n: nat, r: Reading)
    requires Completes(chunks, n) && r.used <= |chunks|
    requires match r.result
      case Line(text) => Completes(chunks, r.used)
      case Eof => r.used > 0 && Ends(chunks, r.used - 1)
      case Timeout => r.used == |chunks| && Pending(chunks, r.used) && !Terminated(AllKept(chunks))
    ensures r.result.Line? && r.used == n
  {
    hide Terminated, AllKept, IsEof;
    assert chunks[..|chunks|] == chunks;
    match r.result
    case Line(text) =>
    case Eof =>
    case Timeout =>
  }

  /** Without escape sequences the line is made of the chunks as they came. */
  lemma {:induction false} KeptVerbatim(chunks: seq<bytes>)
    requires forall i :: 0 <= i < |chunks| ==> ESC !in chunks[i]
    ensures AllKept(chunks) == Concat(chunks)
    decreases |chunks|
  {
    if chunks != [] { KeptVerbatim(chunks[..|chunks| - 1]); }
  }

  function Concat(chunks: seq<bytes>): bytes {
    if chunks == [] then [] else Concat(chunks[..|chunks| - 1]) + chunks[|chunks| - 1]
  }

  // ---------- Typed lines, byte by byte ----------

  /** A chunk of ordinary bytes: no CR, LF, Ctrl-C, Ctrl-D or ESC. */
  predicate Typed(chunk: bytes) {
    chunk != [] && forall i :: 0 <= i < |chunk| ==> chunk[i] !in {0x0D, 0x0A, 0x03, 0x04, 0x1B}
  }

  predicate AllTyped(chunks: seq<bytes>) { forall i :: 0 <= i < |chunks| ==> Typed(chunks[i]) }

  predicate White(s: bytes) { forall i :: 0 <= i < |s| ==> s[i] == 0x20 || 0x09 <= s[i] <= 0x0D }

  /** `text` is what is left of `s` without the white space around it. */
  ghost predicate Trimmed(s: bytes, text: bytes) {
    (text != [] ==> !White(text[..1]) && !White(text[|text| - 1..]))
    && exists a, b :: s == a + text + b && White(a) && White(b)
  }

  lemma StripParts(s: bytes) returns (a: bytes, b: bytes)
    ensures s == a + (Strip(s) + b)
    ensures (forall i :: 0 <= i < |a| ==> IsSpace(a[i])) && forall i :: 0 <= i < |b| ==> IsSpace(b[i])
    ensures var t := Strip(s); t != [] ==> !IsSpace(t[0]) && !IsSpace(t[|t| - 1])
  {
    hide IsSpace, LeftStrip, RightStrip;
    var u := LeftStrip(s);
    a := LeftStripPrefix(s);
    b := RightStripSuffix(u);
  }

  lemma StripIsTrimmed(s: bytes)
    ensures Trimmed(s, Strip(s))
  {
    hide Strip, White, IsSpace, Trimmed;
    var a, b := StripParts(s);
    AllWhite(a);
    AllWhite(b);
    var t := Strip(s);
    if t != [] {
      NotWhite(t[0]);
      NotWhite(t[|t| - 1]);
    }
    TrimmedBy(s, a, t, b);
  }

  lemma TrimmedBy(s: bytes, a: bytes, t: bytes, b: bytes)
    requires s == a + (t + b)
    requires White(a) && White(b) && (t != [] ==> !White([t[0]]) && !White([t[|t| - 1]]))
    ensures Trimmed(s, t)
  {
    hide White;
    assert s == a + t + b;
    assert t != [] ==> t[..1] == [t[0]] && t[|t| - 1..] == [t[|t| - 1]];
  }

  lemma AllWhite(s: bytes)
    requires forall i :: 0 <= i < |s| ==> IsSpace(s[i])
    ensures White(s)
  {
  }

  lemma NotWhite(b: byte)
    requires !IsSpace(b)
    ensures !White([b])
  {
    assert [b][0] == b;
  }

  lemma TypedChunk(chunk: bytes)
    requires Typed(chunk)
    ensures !IsEof(chunk) && Kept(chunk) == chunk && Echo(chunk) == [chunk] && !Terminated(chunk)
  {
    assert chunk[0] in chunk;
    assert ESC !in chunk;
    assert chunk != [CTRL_C] && chunk != [CR] && chunk != [CTRL_D];
  }

  lemma NotTerminated(a: bytes, chunk: bytes)
    requires chunk != [] && !Terminated(chunk)
    ensures !Terminated(a + chunk)
  {
  }

  lemma {:induction false} TypedChunks(chunks: seq<bytes>)
    requires AllTyped(chunks)
    ensures AllKept(chunks) == Concat(chunks) && AllEchoes(chunks) == chunks && !Terminated(Concat(chunks))
    decreases |chunks|
  {
    hide Kept, Echo, Terminated;
    if chunks == [] {
      NotTerminatedYet();
    } else {
      var n := |chunks| - 1;
      assert AllTyped(chunks[..n]) && Typed(chunks[n]);
      TypedChunk(chunks[n]);
      assert chunks[n] != [];
      hide Typed;
      TypedChunks(chunks[..n]);
      NotTerminated(Concat(chunks[..n]), chunks[n]);
      assert chunks == chunks[..n] + [chunks[n]];
    }
  }

  lemma NotTerminatedYet()
    ensures !Terminated([])
  {
  }

  lemma TypedPending(typed: seq<bytes>, rest: seq<bytes>)
    requires AllTyped(typed)
    ensures Pending(typed + rest, |typed|)
    ensures AllKept((typed + rest)[..|typed|]) == Concat(typed) && AllEchoes((typed + rest)[..|typed|]) == typed
    ensures !Terminated(Concat(typed))
  {
    var chunks := typed + rest;
    hide AllKept, AllEchoes, Terminated, Concat, Typed, IsEof;
    forall k | 0 <= k < |typed| ensures !IsEof(chunks[k]) && !Terminated(AllKept(chunks[..k])) {
      assert chunks[k] == typed[k] && chunks[..k] == typed[..k];
      TypedChunk(typed[k]);
      TypedChunks(typed[..k]);
    }
    assert chunks[..|typed|] == typed;
    TypedChunks(typed);
  }

  /**
    * Typed chunks and then Enter (0x0D or 0x0A) or Ctrl-C (0x03) give a line after exactly that chunk: the typed text,
    * with the Ctrl-C, without the white space around it. Every chunk is sent back, a line feed in front of a carriage
    * return, and "^C" with an end of line in front of a Ctrl-C.
    */
  lemma TypedLine(typed: seq<bytes>, last: byte, rest: seq<bytes>)
    requires AllTyped(typed) && last in {0x0D, 0x0A, 0x03}
    ensures var r := Read([], typed + ([[last]] + rest));
      r.result.Line? && Trimmed(Concat(typed) + [last], r.result.text) && r.used == |typed| + 1
      && r.sent == typed + (if last == 0x0D then [[0x0A], [0x0D]]
                            else if last == 0x0A then [[0x0A]]
                            else [[0x5E, 0x43, 0x0D, 0x0A], [0x03]])
  {
    var chunks, n := typed + ([[last]] + rest), |typed|;
    var end: bytes := [last];
    TypedPending(typed, [end] + rest);
    EndChunk(last, Concat(typed));
    assert chunks[n] == end;
    hide Terminated, AllKept, AllEchoes, Read, Typed, Kept, Echo, Concat, IsEof, Trimmed, Strip;
    TakeOneMore(chunks, n);
    PendingMore(chunks, n);
    LineIsFirstCompletePrefix(chunks, n + 1);
    StripIsTrimmed(Concat(typed) + end);
  }

  lemma PendingMore(chunks: seq<bytes>, n: nat)
    requires n < |chunks| && Pending(chunks, n) && !IsEof(chunks[n]) && !Terminated(AllKept(chunks[..n]))
    ensures Pending(chunks, n + 1)
  {
    hide IsEof, Terminated, AllKept;
  }

  lemma EndChunk(last: byte, line: bytes)
    requires last in {0x0D, 0x0A, 0x03}
    ensures !IsEof([last]) && Kept([last]) == [last] && Terminated(line + [last])
    ensures Echo([last]) == if last == 0x0D then [[0x0A], [0x0D]]
                            else if last == 0x0A then [[0x0A]]
                            else [[0x5E, 0x43, 0x0D, 0x0A], [0x03]]
  {
    assert ESC !in [last];
  }

  /** Typed chunks and then nothing or Ctrl-D (0x04) end the input, and "^D" is sent. */
  lemma TypedEnd(typed: seq<bytes>, last: bytes, rest: seq<bytes>)
    requires AllTyped(typed) && (last == [] || last == [0x04])
    ensures Read([], typed + ([last] + rest)) == Reading(Eof, |typed| + 1, typed + [[0x5E, 0x44, 0x0D, 0x0A]])
  {
    var chunks := typed + ([last] + rest);
    TypedPending(typed, [last] + rest);
    assert chunks[|typed|] == last && IsEof(last);
    assert chunks[..0] == [] && chunks[0..] == chunks && AllEchoes([]) == [];
    ReadFrom(chunks, |typed|);
    ReadSkips(chunks, |typed|);
    hide Terminated, AllKept, AllEchoes, Typed;
    assert chunks[|typed|..][0] == last;
  }

  /** Reading from the start is reading on behind pending chunks. */
  lemma {:induction false} ReadSkips(chunks: seq<bytes>, n: nat)
    requires n <= |chunks| && Pending(chunks, n)
    ensures var r := Read(AllKept(chunks[..n]), chunks[n..]);
      Read([], chunks) == Reading(r.result, n + r.used, AllEchoes(chunks[..n]) + r.sent)
  {
    hide Terminated, Echo, Kept, AllKept, AllEchoes, IsEof, Strip, Read;
    if n == 0 {
      NothingKept();
      assert chunks[..0] == [] && chunks[0..] == chunks;
      assert [] + Read([], chunks).sent == Read([], chunks).sent;
    } else {
      ReadSkips(chunks, n - 1);
      ReadStep(AllKept(chunks[..n - 1]), chunks[n - 1..]);
      TakeOneMore(chunks, n - 1);
      assert chunks[n - 1..][1..] == chunks[n..];
    }
  }

  lemma NothingKept()
    ensures AllKept([]) == [] && AllEchoes([]) == []
  {
  }

  /** Any other chunk with an escape character (0x1B) is cleaned, and sent back if something is left. */
  lemma EscapedChunk(chunk: bytes)
    requires chunk !in {[], [0x03], [0x04], [0x0D]}
    ensures Kept(chunk) == (if 0x1B in chunk then Clean(chunk) else chunk)
    ensures Echo(chunk) == if Kept(chunk) == [] then [] else [Kept(chunk)]
  {
  }

  /** Stripping removes exactly the white space at both ends. */
  lemma StripIsExact(s: bytes)
    ensures var t := Strip(s);
      (t != [] ==> !IsSpace(t[0]) && !IsSpace(t[|t| - 1]))
      && exists a, b :: s == a + t + b && (forall i :: 0 <= i < |a| ==> IsSpace(a[i]))
                        && (forall i :: 0 <= i < |b| ==> IsSpace(b[i]))
  {
    var u := LeftStrip(s);
    var a := LeftStripPrefix(s);
    var b := RightStripSuffix(u);
    assert s == a + Strip(s) + b;
  }

  lemma {:induction false} LeftStripPrefix(s: bytes) returns (a: bytes)
    ensures s == a + LeftStrip(s) && forall i :: 0 <= i < |a| ==> IsSpace(a[i])
    ensures LeftStrip(s) != [] ==> !IsSpace(LeftStrip(s)[0])
  {
    a := [];
    if s != [] && IsSpace(s[0]) {
      var rest := LeftStripPrefix(s[1..]);
      a := [s[0]] + rest;
    }
  }

  lemma {:induction false} RightStripSuffix(s: bytes) returns (b: bytes)
    ensures s == RightStrip(s) + b && forall i :: 0 <= i < |b| ==> IsSpace(b[i])
    ensures RightStrip(s) != [] ==> !IsSpace(RightStrip(s)[|RightStrip(s)| - 1]) && RightStrip(s)[0] == s[0]
  {
    b := [];
    if s != [] && IsSpace(s[|s| - 1]) {
      var rest := RightStripSuffix(s[..|s| - 1]);
      b := rest + [s[|s| - 1]];
    }
  }
}
