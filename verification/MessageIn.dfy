/** Message-In framing: the byte state machine that cuts a Message-In phase into
    SCSI messages (AppleMESH-1.0d1/mesh.cpp; SCSI-2, section 6.5). */
module MessageIn {
  import opened Bytes
  import opened Common

  // SCSI-2 message codes
  const COMMAND_COMPLETE: byte := 0x00
  const EXTENDED: byte := 0x01
  const DISCONNECT: byte := 0x04
  const REJECT: byte := 0x07
  const ONE_BYTE_MAX: byte := 0x1F
  const TWO_BYTE_MIN: byte := 0x20
  const TWO_BYTE_MAX: byte := 0x2F
  const IDENTIFY: byte := 0x80

  const BUFFER_SIZE := 16

  /** fMsgInCount is the byte behind the buffer; three bytes of padding follow it,
      and then fMsgInState and the rest of the object. */
  const COUNT_AT := BUFFER_SIZE
  const PADDING_END := 20

  // ----------------------------------------------------------- the driver's way

  /** fMsgInState, with fMsgInCount where it matters. */
  datatype State = Init | Reading(count: int) | Counting | Ready

  /** Conversion to SInt8. */
  function SInt8(n: int): (r: int)
    ensures -128 <= r < 128
  {
    (n + 128) % 256 - 128
  }

  /** The store of byte b at fMsgInBuffer[index]: one past the end it hits the count. */
  function Stored(s: State, index: nat, b: byte): State {
    if index == COUNT_AT && s.Reading? then Reading(SInt8(b)) else s
  }

  function Advance(s: State, b: byte): State {
    match s
    case Init =>
      if b == COMMAND_COMPLETE || b >= IDENTIFY then Ready
      else if b == EXTENDED then Counting
      else if b <= ONE_BYTE_MAX then Ready
      else if TWO_BYTE_MIN <= b <= TWO_BYTE_MAX then Reading(1)
      else Ready
    case Counting => Reading(SInt8(b))
    case Reading(count) =>
      var left := SInt8(count - 1);
      if left <= 0 then Ready else Reading(left)
    case Ready => Ready
  }

  /** How a phase ends when nothing the driver reads ends it. */
  datatype Ending = PhaseChange | NoByte | Timeout

  /** What one Message-In phase comes to: the messages handled, whether the command
      was aborted, whether the routine reports success, and whether a byte was
      stored beyond the padding, over fMsgInState and what follows it: what the
      routine does from there on is not part of this model. */
  datatype Outcome = Outcome(messages: seq<seq<byte>>, aborted: bool, ok: bool, lost: bool)

  function Prepend(m: seq<byte>, o: Outcome): Outcome {
    o.(messages := [m] + o.messages)
  }

  /** An outcome whose first messages have been handled already. */
  function Resumed(before: seq<seq<byte>>, o: Outcome): Outcome {
    o.(messages := before + o.messages)
  }

  predicate EndsPhase(m: seq<byte>) {
    m != [] && (m[0] == DISCONNECT || m[0] == COMMAND_COMPLETE)
  }

  /** After message m the routine leaves its loop. */
  predicate Stops(m: seq<byte>, rejected: bool, reselecting: bool) {
    EndsPhase(m) || rejected || (m != [] && m[0] == REJECT) || reselecting
  }

  /** The routine from any point of its loop: state, the bytes of the message so
      far and the reject flag, with the bytes still to come. */
  function Phase(state: State, buffer: seq<byte>, rejected: bool, reselecting: bool, input: seq<byte>,
                 ending: Ending): Outcome
    decreases |input|, 0
  {
    if input == [] then Outcome([], false, ending != Timeout && state == Init, false)
    else if |buffer| >= PADDING_END then Outcome([], false, false, true)
    else
      var s := Advance(Stored(state, |buffer|, input[0]), input[0]);
      var m := buffer + [input[0]];
      if s != Ready then Phase(s, m, rejected, reselecting, input[1..], ending)
      else Handled(m, rejected, reselecting, input[1..], ending)
  }

  /** The routine from a complete message on. */
  function Handled(m: seq<byte>, rejected: bool, reselecting: bool, input: seq<byte>, ending: Ending): Outcome
    requires m != []
    decreases |input|, 1
  {
    if Stops(m, rejected, reselecting) then Outcome([m], rejected || m[0] == REJECT, !EndsPhase(m), false)
    else Prepend(m, Phase(Init, [], rejected, reselecting, input, ending))
  }

  // ------------------------------------------------------------ the standard's

  /** The bytes that follow the count byte of an extended message; 0 means 256. */
  function ExtendedLength(count: byte): nat {
    if count == 0 then 256 else count as nat
  }

  predicate IsMessage(m: seq<byte>) {
    m != [] &&
    if m[0] == 0x01 then |m| >= 2 && |m| == 2 + ExtendedLength(m[1])
    else if 0x20 <= m[0] <= 0x2F then |m| == 2
    else |m| == 1
  }

  predicate AreMessages(ms: seq<seq<byte>>) {
    forall i :: 0 <= i < |ms| ==> IsMessage(ms[i])
  }

  /** The messages the routine should handle: all, up to the first that stops it. */
  function UpToStop(ms: seq<seq<byte>>, rejected: bool, reselecting: bool): seq<seq<byte>> {
    if ms == [] then []
    else if Stops(ms[0], rejected, reselecting) then [ms[0]]
    else [ms[0]] + UpToStop(ms[1..], rejected, reselecting)
  }

  /** No message is the beginning of a longer one. */
  lemma {:induction false} MessagesArePrefixFree(m: seq<byte>, n: seq<byte>, s: seq<byte>, t: seq<byte>)
    requires IsMessage(m) && IsMessage(n) && m + s == n + t
    ensures m == n && s == t
  {
    assert m[0] == (m + s)[0] == (n + t)[0] == n[0];
    if m[0] == EXTENDED {
      assert m[1] == (m + s)[1] == (n + t)[1] == n[1];
    }
    assert m == (m + s)[..|m|] && n == (n + t)[..|n|];
    assert s == (m + s)[|m|..] && t == (n + t)[|n|..];
  }

  /** A stream of bytes is at most one list of messages. */
  lemma {:induction false} FramingIsUnique(ms: seq<seq<byte>>, ns: seq<seq<byte>>)
    requires AreMessages(ms) && AreMessages(ns) && Flatten(ms) == Flatten(ns)
    ensures ms == ns
  {
    if ms != [] && ns != [] {
      MessagesArePrefixFree(ms[0], ns[0], Flatten(ms[1..]), Flatten(ns[1..]));
      FramingIsUnique(ms[1..], ns[1..]);
    }
  }

  // ------------------------------------------------------ where the driver cuts

  /** How many bytes of stream s the driver takes for its first message.  The count
      is a signed byte: 128 becomes -128, whose decrement wraps to 127, and 0 and
      everything from 129 on end at the first decrement.  A message that goes on to
      a 17th byte has its count replaced by that byte. */
  function Cut(s: seq<byte>): nat
    requires s != []
  {
    if s[0] != EXTENDED then (if TWO_BYTE_MIN <= s[0] <= TWO_BYTE_MAX then 2 else 1)
    else if |s| == 1 || s[1] == 0 || s[1] > 128 then 3
    else if s[1] <= BUFFER_SIZE - 2 then 2 + s[1]
    else COUNT_AT + 1 + if |s| <= COUNT_AT then 0 else Min0(SInt8(SInt8(s[COUNT_AT]) - 1))
  }

  function Min0(n: int): nat {
    if n < 0 then 0 else n
  }

  /** Where the machine stands after k bytes of its first message. */
  function StateAfter(s: seq<byte>, k: nat): State
    requires s != [] && k < Cut(s) && k <= |s|
  {
    if k == 0 then Init
    else if s[0] != EXTENDED then Reading(1)
    else if k == 1 then Counting
    else if k <= COUNT_AT then Reading(SInt8(s[1] - (k - 2)))
    else Reading(Cut(s) - k)
  }

  lemma AdvanceThrough(s: seq<byte>, k: nat)
    requires s != [] && k < Cut(s) && k < |s|
    ensures Advance(Stored(StateAfter(s, k), k, s[k]), s[k]) ==
            if k + 1 == Cut(s) then Ready else StateAfter(s, k + 1)
  {
    if s[0] == EXTENDED && k > 1 {
      CountsDown(s, k);
    }
  }

  /** In the body of an extended message. */
  lemma CountsDown(s: seq<byte>, k: nat)
    requires s != [] && s[0] == EXTENDED && 1 < k < Cut(s) && k < |s|
    ensures Advance(Stored(StateAfter(s, k), k, s[k]), s[k]) ==
            if k + 1 == Cut(s) then Ready else StateAfter(s, k + 1)
  {
    assert StateAfter(s, k).Reading?;
  }

  /** What the routine makes of stream s: its first Cut(s) bytes as one message, if
      they all come and none is stored beyond the padding. */
  function FirstCut(s: seq<byte>, rejected: bool, reselecting: bool, ending: Ending): Outcome
    requires s != []
  {
    if Cut(s) <= |s| && Cut(s) <= PADDING_END then Handled(s[..Cut(s)], rejected, reselecting, s[Cut(s)..], ending)
    else Outcome([], false, false, |s| > PADDING_END)
  }

  lemma {:induction false} CutsFrom(s: seq<byte>, k: nat, rejected: bool, reselecting: bool, ending: Ending)
    requires s != [] && k < Cut(s) && k <= |s| && k <= PADDING_END && (k == |s| ==> k > 0)
    ensures Phase(StateAfter(s, k), s[..k], rejected, reselecting, s[k..], ending) ==
            FirstCut(s, rejected, reselecting, ending)
    decreases |s| - k
  {
    if k < |s| && k < PADDING_END {
      AdvanceThrough(s, k);
      assert s[..k] + [s[k]] == s[..k + 1];
      assert s[k..][1..] == s[k + 1..];
      if k + 1 < Cut(s) {
        CutsFrom(s, k + 1, rejected, reselecting, ending);
      }
    }
  }

  /** The byte machine over every stream, in closed form. */
  lemma PhaseCuts(s: seq<byte>, rejected: bool, reselecting: bool, ending: Ending)
    requires s != []
    ensures Phase(Init, [], rejected, reselecting, s, ending) == FirstCut(s, rejected, reselecting, ending)
  {
    assert s[..0] == [] && s[0..] == s;
    CutsFrom(s, 0, rejected, reselecting, ending);
  }

  /** The messages that are framed right: those that fit the 16-byte buffer, which
      are the extended counts 1 to 14, and from count 15 on those whose 17th byte,
      taken for the count, happens to end the message in the right place before
      more of the object is overwritten. */
  predicate Survives(m: seq<byte>)
    requires IsMessage(m)
  {
    m[0] == EXTENDED ==>
      || 1 <= m[1] <= 14
      || (m[1] == 15 && (m[COUNT_AT] <= 1 || m[COUNT_AT] >= 129))
      || (16 <= m[1] <= 18 && m[COUNT_AT] == m[1] - 14)
  }

  lemma CutIsLength(m: seq<byte>, rest: seq<byte>)
    requires IsMessage(m)
    ensures Survives(m) <==> Cut(m + rest) == |m| <= PADDING_END
    ensures |m| <= BUFFER_SIZE <==> (m[0] == EXTENDED ==> 1 <= m[1] <= 14)
  {
    assert (m + rest)[0] == m[0];
    if m[0] == EXTENDED {
      assert (m + rest)[1] == m[1];
      if |m| > COUNT_AT {
        assert (m + rest)[COUNT_AT] == m[COUNT_AT];
      }
    }
  }

  /** Any list of messages, run together into one stream of bytes, comes out as that
      list up to the first message that stops the routine, if and only if each of
      those survives; all that fit the buffer do. */
  lemma {:induction false} FramedExactlyWhenSurviving(ms: seq<seq<byte>>, rejected: bool, reselecting: bool,
                                                      ending: Ending)
    requires AreMessages(ms)
    ensures var due := UpToStop(ms, rejected, reselecting);
            var outcome := Phase(Init, [], rejected, reselecting, Flatten(ms), ending);
            && (outcome.messages == due <==> forall i :: 0 <= i < |due| ==> IsMessage(due[i]) && Survives(due[i]))
            && (outcome.messages == due ==> !outcome.lost)
  {
    if ms != [] {
      var m, rest := ms[0], Flatten(ms[1..]);
      var due := UpToStop(ms, rejected, reselecting);
      assert due[0] == m;
      PhaseCuts(m + rest, rejected, reselecting, ending);
      CutIsLength(m, rest);
      if Survives(m) {
        assert (m + rest)[..|m|] == m && (m + rest)[|m|..] == rest;
        if !Stops(m, rejected, reselecting) {
          FramedExactlyWhenSurviving(ms[1..], rejected, reselecting, ending);
          var later := UpToStop(ms[1..], rejected, reselecting);
          assert due == [m] + later && due[1..] == later;
          assert forall i :: 0 < i < |due| ==> due[i] == later[i - 1];
          assert forall i :: 0 <= i < |later| ==> later[i] == due[i + 1];
        }
      }
    }
  }

  /** A message that ends the routine's loop by itself: it disconnects, completes the
      command or rejects a message of the driver's. */
  predicate LeavesLoop(m: seq<byte>) {
    m != [] && (m[0] == 0x04 || m[0] == 0x00 || m[0] == 0x07)
  }

  /** What the phase comes to, for messages that are framed right: they are handled up
      to the first that leaves the loop, which the very first does when the driver is
      reselecting or has been rejected before; the command is aborted exactly if that
      happened on a rejection; and the routine succeeds unless the last message ended
      the connection or the command, or no byte came in time. */
  lemma {:induction false} OutcomeExactly(ms: seq<seq<byte>>, k: nat, rejected: bool, reselecting: bool,
                                          ending: Ending)
    requires AreMessages(ms) && k <= |ms| && forall i :: 0 <= i < |ms| ==> IsMessage(ms[i]) && Survives(ms[i])
    requires forall i :: 0 <= i < k ==> !LeavesLoop(ms[i]) && !rejected && !reselecting
    requires k < |ms| ==> LeavesLoop(ms[k]) || rejected || reselecting
    ensures var o := Phase(Init, [], rejected, reselecting, Flatten(ms), ending);
            if k == |ms| then o == Outcome(ms, false, ending != Timeout, false)
            else o == Outcome(ms[..k + 1], rejected || ms[k][0] == 0x07, ms[k][0] !in {0x04, 0x00}, false)
    decreases k
  {
    if ms != [] {
      var m, rest := ms[0], Flatten(ms[1..]);
      PhaseCuts(m + rest, rejected, reselecting, ending);
      CutIsLength(m, rest);
      assert (m + rest)[..|m|] == m && (m + rest)[|m|..] == rest;
      if k > 0 {
        OutcomeExactly(ms[1..], k - 1, rejected, reselecting, ending);
        hide Phase;
        assert k < |ms| ==> ms[..k + 1] == [m] + ms[1..][..k] && ms[1..][k - 1] == ms[k];
        assert ms == [m] + ms[1..];
      } else {
        hide Phase;
        assert ms[..1] == [m];
      }
    }
  }

  /** One byte of the routine. */
  lemma PhaseTakesByte(state: State, before: seq<seq<byte>>, buffer: seq<byte>, rejected: bool, reselecting: bool,
                       input: seq<byte>, ending: Ending)
    requires input != [] && |buffer| < PADDING_END
    ensures var s, m := Advance(Stored(state, |buffer|, input[0]), input[0]), buffer + [input[0]];
            Resumed(before, Phase(state, buffer, rejected, reselecting, input, ending)) ==
            if s != Ready then Resumed(before, Phase(s, m, rejected, reselecting, input[1..], ending))
            else if Stops(m, rejected, reselecting) then
              Outcome(before + [m], rejected || m[0] == REJECT, !EndsPhase(m), false)
            else Resumed(before + [m], Phase(Init, [], rejected, reselecting, input[1..], ending))
  {
    var m := buffer + [input[0]];
    var rest := Phase(Init, [], rejected, reselecting, input[1..], ending);
    assert before + ([m] + rest.messages) == before + [m] + rest.messages;
  }

  /** The routine itself.  What a message makes the driver do is outside it, but
      for MESSAGE REJECT, whose flag ends the phase. */
  class MessageReader {
    const fMsgInBuffer: array<byte>
    var fMsgInState: State
    var fMsgInRejected: bool          // kFlagMsgIn_Reject in fMsgInFlag

    constructor ()
      ensures !fMsgInRejected && fMsgInBuffer.Length == BUFFER_SIZE && fresh(fMsgInBuffer)
    {
      fMsgInBuffer := new byte[BUFFER_SIZE](_ => 0);
      fMsgInState, fMsgInRejected := Init, false;
    }

    /** The byte goes to fMsgInBuffer[index], or over the count, or into padding;
        beyond is what was sent for the places behind the buffer. */
    method Store(index: nat, messageByte: byte, beyond: seq<byte>) returns (after: seq<byte>)
      requires fMsgInBuffer.Length == BUFFER_SIZE && index < PADDING_END
      requires beyond != [] ==> index >= BUFFER_SIZE
      modifies fMsgInBuffer, this`fMsgInState
      ensures fMsgInBuffer[..InBuffer(index + 1)] + after ==
              old(fMsgInBuffer[..InBuffer(index)]) + beyond + [messageByte]
      ensures after != [] ==> index + 1 > BUFFER_SIZE
      ensures fMsgInState == Stored(old(fMsgInState), index, messageByte)
    {
      after := beyond;
      if index < BUFFER_SIZE {
        fMsgInBuffer[index] := messageByte;
      } else {
        after := after + [messageByte];
        if index == COUNT_AT && fMsgInState.Reading? {
          fMsgInState := Reading(SInt8(messageByte));
        }
      }
    }

    /** input is what the target sends, a byte a request, before the phase ends. */
    method DoMessageInPhase(input: seq<byte>, ending: Ending, fFlagReselecting: bool)
      returns (messages: seq<seq<byte>>, aborted: bool, ok: bool, lost: bool)
      requires fMsgInBuffer.Length == BUFFER_SIZE
      modifies this, fMsgInBuffer
      ensures Outcome(messages, aborted, ok, lost) ==
              Phase(Init, [], old(fMsgInRejected), fFlagReselecting, input, ending)
    {
      hide Advance, Stored, Phase, Resumed;
      fMsgInState := Init;
      messages, aborted, ok, lost := [], false, true, false;
      var next, index := 0, 0;
      var beyond: seq<byte> := [];
      ghost var taken: seq<byte> := [];
      ghost var whole := Phase(Init, [], fMsgInRejected, fFlagReselecting, input, ending);
      ResumedFromNothing(whole);
      assert input[0..] == input;
      while next < |input|
        invariant 0 <= next <= |input| && index == |taken| <= PADDING_END && !aborted && ok && !lost
        invariant fMsgInRejected == old(fMsgInRejected)
        invariant beyond != [] ==> index >= BUFFER_SIZE
        invariant taken == fMsgInBuffer[..InBuffer(index)] + beyond
        invariant whole == Resumed(messages, Phase(fMsgInState, taken, fMsgInRejected, fFlagReselecting,
                                                   input[next..], ending))
      {
        if index == PADDING_END {
          PhaseIsLost(fMsgInState, messages, taken, fMsgInRejected, fFlagReselecting, input[next..], ending);
          ok, lost := false, true;
          return;
        }
        PhaseTakesByte(fMsgInState, messages, taken, fMsgInRejected, fFlagReselecting, input[next..], ending);
        assert input[next..][1..] == input[next + 1..];
        var messageByte := input[next];
        beyond := Store(index, messageByte, beyond);
        taken := taken + [messageByte];
        next, index := next + 1, index + 1;
        fMsgInState := Advance(fMsgInState, messageByte);
        if fMsgInState == Ready {
          assert fMsgInBuffer[0] == taken[0];
          messages := messages + [fMsgInBuffer[..InBuffer(index)] + beyond];
          if fMsgInBuffer[0] == REJECT {
            fMsgInRejected := true;
          }
          fMsgInState, index, beyond := Init, 0, [];
          taken := [];
          ok := fMsgInBuffer[0] != DISCONNECT && fMsgInBuffer[0] != COMMAND_COMPLETE;
          if fMsgInRejected {
            aborted := true;
            return;
          }
          if fFlagReselecting || !ok {
            return;
          }
        }
      }
      assert input[next..] == [];
      PhaseEnds(fMsgInState, messages, taken, fMsgInRejected, fFlagReselecting, ending);
      ok := ending != Timeout && fMsgInState == Init;
    }
  }

  /** How many of the first index bytes of a message are in the buffer proper. */
  function InBuffer(index: nat): nat {
    if index < BUFFER_SIZE then index else BUFFER_SIZE
  }

  lemma ResumedFromNothing(o: Outcome)
    ensures Resumed([], o) == o
  {
    assert [] + o.messages == o.messages;
  }

  lemma PhaseIsLost(state: State, before: seq<seq<byte>>, buffer: seq<byte>, rejected: bool, reselecting: bool,
                    input: seq<byte>, ending: Ending)
    requires input != [] && |buffer| == PADDING_END
    ensures Resumed(before, Phase(state, buffer, rejected, reselecting, input, ending)) ==
            Outcome(before, false, false, true)
  {
    assert before + [] == before;
  }

  lemma PhaseEnds(state: State, before: seq<seq<byte>>, buffer: seq<byte>, rejected: bool, reselecting: bool,
                  ending: Ending)
    ensures Resumed(before, Phase(state, buffer, rejected, reselecting, [], ending)) ==
            Outcome(before, false, ending != Timeout && state == Init, false)
  {
    assert before + [] == before;
  }
}
