/**
  The incremental deframer of the LISTEN client and its message builders: PostgreSQL frontend/backend
  protocol 3.0 messages are one type byte, a four-byte big-endian length that counts itself, and a body.
*/
module WireProtocol {
  import opened Arithmetic
  import opened Wrappers

  type Byte = b: int | 0 <= b < 256
  type Bytes = seq<Byte>

  const WORDS: int := 0x1_0000_0000

  /** A dispatched message. */
  datatype Message = Message(msgType: Byte, body: Bytes)

  function Word(a: int, b: int, c: int, d: int): int { ((a * 256 + b) * 256 + c) * 256 + d }

  /** DataView.getInt32: a signed big-endian word. */
  function ReadInt32BE(buf: Bytes, offset: nat): (r: int)
    requires offset + 4 <= |buf|
    ensures -0x8000_0000 <= r < 0x8000_0000
  {
    var word := Word(buf[offset], buf[offset + 1], buf[offset + 2], buf[offset + 3]);
    if word < 0x8000_0000 then word else word - WORDS
  }

  /** DataView.setInt32: the low 32 bits of the number, big-endian. */
  function Int32BE(value: int): (r: Bytes)
    ensures |r| == 4
  {
    var word := value % WORDS;
    [word / 0x100_0000, word / 0x1_0000 % 256, word / 0x100 % 256, word % 256]
  }

  // ---- the message loop, for any length field ----

  /** Where an index of subarray points: a negative one counts from the end, and none leaves the array. */
  function Clip(length: nat, index: int): (at: nat)
    ensures at <= length
  {
    if index >= length then length else if index >= 0 then index else if -index >= length then 0 else length + index
  }

  /** Uint8Array.subarray(begin, end). */
  function Subarray(s: Bytes, begin: int, end: int): Bytes {
    var from, to := Clip(|s|, begin), Clip(|s|, end);
    if from <= to then s[from..to] else []
  }

  function TotalLength(s: Bytes): int
    requires |s| >= 5
  {
    1 + ReadInt32BE(s, 1)
  }

  /** The loop makes another pass over the buffer. */
  predicate Passes(s: Bytes) { |s| >= 5 && |s| >= TotalLength(s) }

  function PassMessage(s: Bytes): Message
    requires Passes(s)
  {
    Message(s[0], Subarray(s, 5, TotalLength(s)))
  }

  function AfterPass(s: Bytes): Bytes
    requires Passes(s)
  {
    Subarray(s, TotalLength(s), |s|)
  }

  /** A length field of -1, or one that points before the buffer, leaves the buffer as it is. */
  predicate Stutters(s: Bytes) {
    Passes(s) && (TotalLength(s) == 0 || TotalLength(s) <= -|s|)
  }

  /** Every other pass makes the buffer shorter. */
  lemma PassShrinks(s: Bytes)
    requires Passes(s)
    ensures AfterPass(s) == s <==> Stutters(s)
    ensures !Stutters(s) ==> |AfterPass(s)| < |s|
  {}

  /** Every pass from this buffer on makes the buffer shorter, until the loop stops. */
  predicate Progresses(s: Bytes)
    decreases |s|
  {
    !Passes(s) || (!Stutters(s) && (PassShrinks(s); Progresses(AfterPass(s))))
  }

  /** The messages the loop dispatches. */
  function Dispatched(s: Bytes): seq<Message>
    requires Progresses(s)
    decreases |s|
  {
    if !Passes(s) then [] else PassShrinks(s); [PassMessage(s)] + Dispatched(AfterPass(s))
  }

  /** What the loop leaves pending. */
  function Left(s: Bytes): Bytes
    requires Progresses(s)
    decreases |s|
  {
    if !Passes(s) then s else PassShrinks(s); Left(AfterPass(s))
  }

  lemma OnePass(s: Bytes)
    requires Progresses(s) && Passes(s)
    ensures |AfterPass(s)| < |s| && Progresses(AfterPass(s))
    ensures Dispatched(s) == [PassMessage(s)] + Dispatched(AfterPass(s)) && Left(s) == Left(AfterPass(s))
  {
    PassShrinks(s);
  }

  lemma LastPass(s: Bytes)
    requires !Passes(s)
    ensures Progresses(s) && Dispatched(s) == [] && Left(s) == s
  {}

  class Deframer {
    var pending: Bytes
    /** Every message handed to a handler so far. */
    ghost var dispatched: seq<Message>

    constructor ()
      ensures pending == [] && dispatched == []
    {
      pending, dispatched := [], [];
    }

    /** The socket's data handler: append the chunk and dispatch what is complete. */
    method OnData(chunk: Bytes)
      requires Progresses(pending + chunk)
      modifies this
      ensures dispatched == old(dispatched) + Dispatched(old(pending) + chunk)
      ensures pending == Left(old(pending) + chunk)
    {
      pending := pending + chunk;
      ProcessMessages();
    }

    method ProcessMessages()
      requires Progresses(pending)
      modifies this
      ensures dispatched == old(dispatched) + Dispatched(old(pending))
      ensures pending == Left(old(pending))
    {
      hide Progresses, Dispatched, Left, Subarray, ReadInt32BE, Clip;
      while |pending| >= 5
        invariant Progresses(pending)
        invariant dispatched + Dispatched(pending) == old(dispatched) + Dispatched(old(pending))
        invariant Left(pending) == Left(old(pending))
        decreases |pending|
      {
        var msgType := pending[0];
        var msgLen := ReadInt32BE(pending, 1);
        var totalLen := 1 + msgLen;
        if |pending| < totalLen {
          break;
        }
        var body := Subarray(pending, 5, totalLen);
        OnePass(pending);
        dispatched := dispatched + [Message(msgType, body)];
        pending := Subarray(pending, totalLen, |pending|);
      }
      LastPass(pending);
    }
  }

  // ---- when the loop ends ----

  /** The buffer after n passes; None once the loop has stopped before. */
  function Reached(s: Bytes, n: nat): Option<Bytes> {
    if n == 0 then Some(s)
    else
      var before := Reached(s, n - 1);
      if before.Some? && Passes(before.value) then Some(AfterPass(before.value)) else None
  }

  ghost predicate LoopEnds(s: Bytes) { exists n: nat :: Reached(s, n).None? }

  lemma {:induction false} ReachedLater(s: Bytes, n: nat)
    ensures Reached(s, n + 1) == if Passes(s) then Reached(AfterPass(s), n) else None
  {
    hide Passes, AfterPass;
    if n > 0 { ReachedLater(s, n - 1); }
  }

  lemma {:induction false} StutterIsForever(s: Bytes, n: nat, m: nat)
    requires Reached(s, n).Some? && Stutters(Reached(s, n).value)
    ensures Reached(s, m).Some?
    decreases m
  {
    if m > n {
      SameFrom(s, n, m);
    } else {
      StillRunning(s, m, n);
    }
  }

  lemma {:induction false} SameFrom(s: Bytes, n: nat, m: nat)
    requires Reached(s, n).Some? && Stutters(Reached(s, n).value) && m >= n
    ensures Reached(s, m) == Reached(s, n)
  {
    hide Passes, AfterPass, Stutters;
    if m > n {
      SameFrom(s, n, m - 1);
      StutterPasses(Reached(s, n).value);
    }
  }

  lemma StutterPasses(s: Bytes)
    requires Stutters(s)
    ensures Passes(s) && AfterPass(s) == s
  {
    PassShrinks(s);
  }

  lemma {:induction false} StillRunning(s: Bytes, m: nat, n: nat)
    requires Reached(s, n).Some? && m <= n
    ensures Reached(s, m).Some?
  {
    hide Passes, AfterPass;
    if m < n { StillRunning(s, m, n - 1); }
  }

  lemma {:induction false} ProgressEnds(s: Bytes) returns (n: nat)
    requires Progresses(s)
    ensures Reached(s, n).None?
    decreases |s|
  {
    hide AfterPass;
    if Passes(s) {
      PassShrinks(s);
      n := ProgressEnds(AfterPass(s));
      ReachedLater(s, n);
      n := n + 1;
    } else {
      ReachedLater(s, 0);
      n := 1;
    }
  }

  lemma {:induction false} NoProgressStutters(s: Bytes) returns (n: nat)
    requires !Progresses(s)
    ensures Reached(s, n).Some? && Stutters(Reached(s, n).value)
    decreases |s|
  {
    hide AfterPass, Passes, Stutters;
    if Stutters(s) {
      n := 0;
    } else {
      StallsLater(s);
      PassShrinks(s);
      n := NoProgressStutters(AfterPass(s));
      ReachedLater(s, n);
      n := n + 1;
    }
  }

  lemma StallsLater(s: Bytes)
    requires !Progresses(s) && !Stutters(s)
    ensures Passes(s) && !Progresses(AfterPass(s))
  {}

  /** The loop ends exactly if no buffer it reaches has a stuttering length field. */
  lemma LoopEndsIff(s: Bytes)
    ensures LoopEnds(s) <==> forall n: nat :: Reached(s, n).Some? ==> !Stutters(Reached(s, n).value)
    ensures LoopEnds(s) <==> Progresses(s)
  {
    hide Reached, Progresses, Stutters;
    if Progresses(s) {
      var end := ProgressEnds(s);
      forall n: nat | Reached(s, n).Some? ensures !Stutters(Reached(s, n).value) {
        if Stutters(Reached(s, n).value) { StutterIsForever(s, n, end); }
      }
    } else {
      var at := NoProgressStutters(s);
      forall n: nat ensures Reached(s, n).Some? { StutterIsForever(s, at, n); }
    }
  }

  // ---- frames of a byte stream ----

  /** A complete message, of a length field that is not negative, stands at the front of the buffer. */
  predicate HasFrame(s: Bytes) { Passes(s) && TotalLength(s) >= 1 }

  function FrameLength(s: Bytes): nat
    requires HasFrame(s)
  {
    TotalLength(s)
  }

  /** All the complete messages of a stream, in order. */
  function Frames(s: Bytes): seq<Message>
    decreases |s|
  {
    if HasFrame(s) then [PassMessage(s)] + Frames(s[FrameLength(s)..]) else []
  }

  /** The incomplete message at the end of a stream. */
  function Rest(s: Bytes): (r: Bytes)
    ensures |r| <= |s|
    decreases |s|
  {
    if HasFrame(s) then Rest(s[FrameLength(s)..]) else s
  }

  /** No length field of the stream is negative; the protocol demands at least 4. */
  predicate WellFramed(s: Bytes)
    decreases |s|
  {
    |s| < 5 || (TotalLength(s) >= 1 && (HasFrame(s) ==> WellFramed(s[FrameLength(s)..])))
  }

  lemma FrameIsPass(s: Bytes)
    requires HasFrame(s)
    ensures AfterPass(s) == s[FrameLength(s)..] && !Stutters(s)
    ensures PassMessage(s).body == if FrameLength(s) < 5 then [] else s[5..FrameLength(s)]
  {}

  /** On a well-framed stream the loop ends, dispatches its frames and leaves its incomplete end. */
  lemma {:induction false} FramesAreDispatched(s: Bytes)
    requires WellFramed(s)
    ensures Progresses(s) && Dispatched(s) == Frames(s) && Left(s) == Rest(s)
    decreases |s|
  {
    if HasFrame(s) {
      FrameIsPass(s);
      FramesAreDispatched(s[FrameLength(s)..]);
    }
  }

  // ---- chunk independence ----

  lemma FrameIsStable(a: Bytes, b: Bytes)
    requires HasFrame(a)
    ensures HasFrame(a + b) && FrameLength(a + b) == FrameLength(a) && PassMessage(a + b) == PassMessage(a)
    ensures (a + b)[FrameLength(a)..] == a[FrameLength(a)..] + b
  {
    assert ReadInt32BE(a + b, 1) == ReadInt32BE(a, 1);
    FrameIsPass(a);
    FrameIsPass(a + b);
    if FrameLength(a) >= 5 { assert (a + b)[5..FrameLength(a)] == a[5..FrameLength(a)]; }
  }

  /** Deframing a stream in two parts: the remainder of the first part goes in front of the second. */
  lemma {:induction false} FramesOfConcat(a: Bytes, b: Bytes)
    ensures Frames(a + b) == Frames(a) + Frames(Rest(a) + b)
    ensures Rest(a + b) == Rest(Rest(a) + b)
    ensures WellFramed(a + b) ==> WellFramed(a) && WellFramed(Rest(a) + b)
    decreases |a|
  {
    hide PassMessage;
    if HasFrame(a) {
      FrameIsStable(a, b);
      FramesOfConcat(a[FrameLength(a)..], b);
    } else {
      PartialFrame(a, b);
    }
  }

  lemma PartialFrame(a: Bytes, b: Bytes)
    requires !HasFrame(a)
    ensures WellFramed(a + b) ==> WellFramed(a)
  {
    if |a| >= 5 {
      assert ReadInt32BE(a + b, 1) == ReadInt32BE(a, 1);
    }
  }

  function Concat(chunks: seq<Bytes>): Bytes {
    if chunks == [] then [] else Concat(chunks[..|chunks| - 1]) + chunks[|chunks| - 1]
  }

  /** What feeding the chunks one by one dispatches and leaves pending; None if a loop does not end. */
  function Fed(chunks: seq<Bytes>): Option<(seq<Message>, Bytes)> {
    if chunks == [] then Some(([], []))
    else
      var before := Fed(chunks[..|chunks| - 1]);
      if before.None? then None
      else
        var stream := before.value.1 + chunks[|chunks| - 1];
        if Progresses(stream) then Some((before.value.0 + Dispatched(stream), Left(stream))) else None
  }

  /**
    However a well-framed stream is cut into chunks, every loop ends, and the messages dispatched and the bytes
    left are those of the whole stream.
  */
  lemma {:induction false} ChunkingIsIrrelevant(chunks: seq<Bytes>)
    requires WellFramed(Concat(chunks))
    ensures Progresses(Concat(chunks)) && Fed(chunks) == Some((Dispatched(Concat(chunks)), Left(Concat(chunks))))
    decreases |chunks|
  {
    hide WellFramed, Frames, Rest, Progresses, Dispatched, Left;
    FramesAreDispatched(Concat(chunks));
    if chunks == [] {
      NothingPending();
    } else {
      var front, last := chunks[..|chunks| - 1], chunks[|chunks| - 1];
      FramesOfConcat(Concat(front), last);
      ChunkingIsIrrelevant(front);
      FramesAreDispatched(Concat(front));
      FramesAreDispatched(Rest(Concat(front)) + last);
    }
  }

  lemma NothingPending()
    ensures Progresses([]) && Dispatched([]) == [] && Left([]) == []
  {}

  // ---- which streams depend on their chunks ----

  /** The loop ends on the whole stream, and every split gives the same messages and the same rest. */
  ghost predicate ChunksDoNotMatter(s: Bytes) {
    Progresses(s) && forall chunks {:trigger Fed(chunks)} :: Concat(chunks) == s ==> Fed(chunks) == Some((Dispatched(s), Left(s)))
  }

  /** Behind its complete frames the stream has just a header, whose length field is one of -5 to -2. */
  predicate EndsInShortNegativeHeader(s: Bytes) {
    |Rest(s)| == 5 && -4 <= TotalLength(Rest(s)) <= -1
  }

  lemma {:induction false} WellFramedRest(s: Bytes)
    ensures WellFramed(s) <==> |Rest(s)| < 5 || TotalLength(Rest(s)) >= 1
    ensures !HasFrame(Rest(s)) && s[|s| - |Rest(s)|..] == Rest(s)
    decreases |s|
  {
    if HasFrame(s) { WellFramedRest(s[FrameLength(s)..]); }
  }

  /** The loop first dispatches the complete frames and then does what it does on the rest. */
  lemma {:induction false} FramesThenRest(s: Bytes)
    ensures Progresses(s) <==> Progresses(Rest(s))
    ensures Progresses(s) ==> Dispatched(s) == Frames(s) + Dispatched(Rest(s)) && Left(s) == Left(Rest(s))
    decreases |s|
  {
    if HasFrame(s) {
      FrameIsPass(s);
      FramesThenRest(s[FrameLength(s)..]);
    }
  }

  /** Cutting a stream behind the header of its ill-formed rest keeps its frames and cuts the rest. */
  lemma {:induction false} CutBehindHeader(s: Bytes, n: nat)
    requires |Rest(s)| >= 5 && TotalLength(Rest(s)) < 1 && |s| - |Rest(s)| + 5 <= n <= |s|
    ensures Frames(s[..n]) == Frames(s) && Rest(s[..n]) == Rest(s)[..n - (|s| - |Rest(s)|)]
    decreases |s|
  {
    var a := s[..n];
    assert s == a + s[n..];
    if HasFrame(s) {
      var k := FrameLength(s);
      WellFramedRest(s[k..]);
      assert ReadInt32BE(a, 1) == ReadInt32BE(s, 1);
      FrameIsStable(a, s[n..]);
      assert a[k..] == s[k..][..n - k];
      CutBehindHeader(s[k..], n - k);
    } else {
      assert ReadInt32BE(a, 1) == ReadInt32BE(s, 1);
    }
  }

  lemma FedOne(a: Bytes)
    ensures Fed([a]) == if Progresses(a) then Some((Dispatched(a), Left(a))) else None
  {
    assert [a][..|[a]| - 1] == [] && [] + a == a;
    assert Fed([]) == Some(([], []));
    if Progresses(a) { assert [] + Dispatched(a) == Dispatched(a); }
  }

  lemma FedTwo(a: Bytes, b: Bytes)
    ensures Fed([a, b]) ==
      if Progresses(a) && Progresses(Left(a) + b) then Some((Dispatched(a) + Dispatched(Left(a) + b), Left(Left(a) + b))) else None
  {
    assert [a, b][..1] == [a];
    FedOne(a);
  }

  lemma ConcatTwo(a: Bytes, b: Bytes)
    ensures Concat([a, b]) == a + b
  {
    assert [a, b][..1] == [a] && [a][..0] == [];
    assert Concat([]) == [] && Concat([a]) == [] + a;
  }

  /** One pass over a buffer with a negative length that does not stutter leaves its last bytes, too few for another. */
  lemma NegativePass(s: Bytes)
    requires |s| >= 5 && -4 <= TotalLength(s) <= -1
    ensures Passes(s) && Progresses(s) && Dispatched(s) == [PassMessage(s)] && Left(s) == s[|s| + TotalLength(s)..]
  {
    var left := AfterPass(s);
    assert left == s[|s| + TotalLength(s)..] && |left| < 5;
    LastPass(left);
  }

  lemma SameTotalLength(s: Bytes, n: nat)
    requires 5 <= n <= |s|
    ensures TotalLength(s[..n]) == TotalLength(s)
  {
    assert ReadInt32BE(s[..n], 1) == ReadInt32BE(s, 1);
  }

  lemma Stalls(s: Bytes)
    requires Stutters(s)
    ensures !Progresses(s)
  {}

  lemma {:induction false} DispatchedNothing(s: Bytes)
    requires Progresses(s) && Dispatched(s) == []
    ensures Left(s) == s
  {
    if Passes(s) { OnePass(s); }
  }

  /** After a header alone, too many bytes are left: they stay, or a further message comes out of them. */
  lemma HeaderLeavesMore(r: Bytes)
    requires |r| >= 6 && -4 <= TotalLength(r) <= -1
    ensures Progresses(r) && Progresses(r[..5]) && |Dispatched(r)| == |Dispatched(r[..5])| == 1
    ensures var u := Left(r[..5]) + r[5..];
      Progresses(u) && Dispatched(u) == [] ==> Left(u) != Left(r)
  {
    hide Progresses, Dispatched, Left, ReadInt32BE;
    SameTotalLength(r, 5);
    NegativePass(r);
    NegativePass(r[..5]);
    var u := Left(r[..5]) + r[5..];
    assert |u| > |Left(r)|;
    if Progresses(u) && Dispatched(u) == [] { DispatchedNothing(u); }
  }

  lemma HeaderStalls(r: Bytes)
    requires |r| >= 5 && (TotalLength(r) == 0 || TotalLength(r) <= -5)
    ensures !Progresses(r[..5])
  {
    SameTotalLength(r, 5);
    Stalls(r[..5]);
  }

  /** An ill-formed rest of more than a header comes out differently when it is cut behind the header. */
  lemma CutIsSeen(s: Bytes)
    requires !WellFramed(s) && |Rest(s)| >= 6 && Progresses(s)
    ensures var n := |s| - |Rest(s)| + 5; Fed([s[..n], s[n..]]) != Some((Dispatched(s), Left(s)))
  {
    hide WellFramed, Progresses, Dispatched, Left, Fed, ReadInt32BE, Passes, HasFrame, Frames, Rest;
    var r, n := Rest(s), |s| - |Rest(s)| + 5;
    WellFramedRest(s);
    CutBehindHeader(s, n);
    FramesThenRest(s);
    FramesThenRest(s[..n]);
    FedTwo(s[..n], s[n..]);
    assert s[n..] == r[5..];
    if TotalLength(r) == 0 || TotalLength(r) <= -5 {
      HeaderStalls(r);
    } else {
      HeaderLeavesMore(r);
    }
  }

  lemma LastChunk(c: Bytes, last: Bytes)
    requires EndsInShortNegativeHeader(c + last) && last != []
    ensures WellFramed(c)
  {
    FramesOfConcat(c, last);
    WellFramedRest(c);
    if |Rest(c)| >= 5 && TotalLength(Rest(c)) < 1 {
      NoFrameBehind(Rest(c), last);
    }
  }

  lemma NoFrameBehind(r: Bytes, more: Bytes)
    requires |r| >= 5 && TotalLength(r) < 1
    ensures Rest(r + more) == r + more
  {
    assert ReadInt32BE(r + more, 1) == ReadInt32BE(r, 1);
  }

  /** A header at the very end is looked at only once the whole stream is there. */
  lemma {:induction false} ShortHeaderIsSafe(chunks: seq<Bytes>)
    requires EndsInShortNegativeHeader(Concat(chunks))
    ensures Progresses(Concat(chunks)) && Fed(chunks) == Some((Dispatched(Concat(chunks)), Left(Concat(chunks))))
    decreases |chunks|
  {
    hide WellFramed, Frames, Rest, Progresses, Dispatched, Left, Passes;
    var s := Concat(chunks);
    NegativePass(Rest(s));
    FramesThenRest(s);
    if chunks == [] {
      NothingRests();
    } else {
      var c, last := Concat(chunks[..|chunks| - 1]), chunks[|chunks| - 1];
      if last == [] {
        assert c + last == c;
        ShortHeaderIsSafe(chunks[..|chunks| - 1]);
        assert Left(s) + last == Left(s);
        TooShort(Left(s));
        LastPass(Left(s));
        assert Dispatched(s) + [] == Dispatched(s);
      } else {
        LastChunk(c, last);
        ChunkingIsIrrelevant(chunks[..|chunks| - 1]);
        FramesAreDispatched(c);
        FramesOfConcat(c, last);
        var x := Rest(c) + last;
        FramesThenRest(x);
        assert Frames(c) + (Frames(x) + Dispatched(Rest(x))) == (Frames(c) + Frames(x)) + Dispatched(Rest(x));
      }
    }
  }

  lemma NothingRests()
    ensures Rest([]) == []
  {}

  lemma TooShort(s: Bytes)
    ensures |s| < 5 ==> !Passes(s)
  {}

  /**
    The messages and the rest of a stream do not depend on its chunks exactly if it has no negative length field, or
    if the first one is one of -5 to -2 and stands in the last five bytes.
  */
  lemma ChunksDoNotMatterIff(s: Bytes)
    ensures ChunksDoNotMatter(s) <==> WellFramed(s) || EndsInShortNegativeHeader(s)
  {
    hide WellFramed, Progresses, Dispatched, Left, Fed, Rest, Frames, Concat, ReadInt32BE;
    if WellFramed(s) {
      FramesAreDispatched(s);
      forall chunks | Concat(chunks) == s ensures Fed(chunks) == Some((Dispatched(s), Left(s))) { ChunkingIsIrrelevant(chunks); }
    } else if EndsInShortNegativeHeader(s) {
      OnlyChunk(s);
      ShortHeaderIsSafe([s]);
      forall chunks | Concat(chunks) == s ensures Fed(chunks) == Some((Dispatched(s), Left(s))) { ShortHeaderIsSafe(chunks); }
    } else {
      WellFramedRest(s);
      FramesThenRest(s);
      if |Rest(s)| == 5 {
        Stalls(Rest(s));
      } else if Progresses(s) {
        var n := |s| - |Rest(s)| + 5;
        CutIsSeen(s);
        ConcatTwo(s[..n], s[n..]);
        assert s[..n] + s[n..] == s;
      }
    }
  }

  lemma OnlyChunk(s: Bytes)
    ensures Concat([s]) == s
  {
    assert [s][..0] == [] && [] + s == s;
    assert Concat([]) == [];
  }

  /** For instance, the length field -2 in a stream of six bytes. */
  lemma NegativeLengthsDependOnChunks()
    ensures var a, b: Bytes := [0, 255, 255, 255, 254], [9];
      && Progresses(a + b) && Left(a + b) == [9]
      && Fed([a, b]).Some? && Fed([a, b]).value.1 == [254, 9]
  {
    var a: Bytes, b: Bytes := [0, 255, 255, 255, 254], [9];
    assert a + b == [0, 255, 255, 255, 254, 9];
    assert ReadInt32BE(a, 1) == -2 == ReadInt32BE(a + b, 1);
    assert AfterPass(a + b) == [9] && AfterPass(a) == [254];
    assert [a, b][..1] == [a] && [a][..0] == [];
    assert Left([254]) == [254] && Left([9]) == [9];
    assert Fed([]) == Some(([], []));
    assert [] + a == a;
    assert Fed([a]).value.1 == [254];
    assert [254] + b == [254, 9];
    assert Left([254, 9]) == [254, 9];
  }

  // ---- builders ----

  /** All typed builders: type byte, setInt32 of four plus the payload length, payload. */
  function Build(msgType: Byte, payload: Bytes): Bytes {
    [msgType] + Int32BE(4 + |payload|) + payload
  }

  function BuildSimpleQuery(sqlText: Bytes): Bytes { Build(0x51, sqlText + [0]) }

  function BuildCleartextAuthResponse(password: Bytes): Bytes { Build(0x70, password + [0]) }

  function BuildSASLInitialResponse(mechanism: Bytes, clientFirst: Bytes): Bytes {
    Build(0x70, mechanism + [0] + Int32BE(|clientFirst|) + clientFirst)
  }

  function BuildSASLResponse(clientFinal: Bytes): Bytes { Build(0x70, clientFinal) }

  function BuildTerminateMessage(): Bytes { Build(0x58, []) }

  method ConcatBytes(parts: seq<Bytes>) returns (result: Bytes)
    ensures result == Concat(parts)
  {
    result := [];
    for i := 0 to |parts|
      invariant result == Concat(parts[..i])
    {
      assert parts[..i + 1][..i] == parts[..i];
      result := result + parts[i];
    }
    assert parts[..|parts|] == parts;
  }

  lemma HighBytes(word: int)
    requires 0 <= word < WORDS
    ensures Int32BE(word) == [word / 256 / 256 / 256, word / 256 / 256 % 256, word / 256 % 256, word % 256]
  {
    TwoBytes(word);
    ThreeBytes(word);
    SmallRemainder(word);
  }

  lemma SmallRemainder(word: int)
    requires 0 <= word < WORDS
    ensures word % WORDS == word
  {}

  lemma ThreeBytes(n: int)
    ensures n / 0x100_0000 == n / 256 / 256 / 256
  {
    TwoBytes(n);
    var b := n / 256 / 256;
    OneByte(b);
    ThreeBytesOf(n, b, b / 256);
  }

  lemma ThreeBytesOf(n: int, b: int, c: int)
    requires b * 0x1_0000 <= n < b * 0x1_0000 + 0x1_0000 && c * 256 <= b < c * 256 + 256
    ensures n / 0x100_0000 == c
  {
    DivisionIsUnique(n, 0x100_0000, c);
  }

  lemma OneByte(n: int)
    ensures n / 256 * 256 <= n < n / 256 * 256 + 256
  {}

  lemma TwoBytes(n: int)
    ensures n / 0x1_0000 == n / 256 / 256
    ensures n / 256 / 256 * 0x1_0000 <= n < n / 256 / 256 * 0x1_0000 + 0x1_0000
  {
    OneByte(n);
    OneByte(n / 256);
    DivisionIsUnique(n, 0x1_0000, n / 256 / 256);
  }

  lemma Digits(word: int)
    requires 0 <= word < WORDS
    ensures var d := Int32BE(word);
      Word(d[0], d[1], d[2], d[3]) == word
  {
    hide Int32BE, Word;
    HighBytes(word);
    Recombined(word, word / 256, word / 256 / 256, word / 256 / 256 / 256);
  }

  lemma Recombined(word: int, a: int, b: int, c: int)
    requires a == word / 256 && b == a / 256 && c == b / 256
    ensures Word(c, b % 256, a % 256, word % 256) == word
  {
    assert word == a * 256 + word % 256;
    assert a == b * 256 + a % 256;
    assert b == c * 256 + b % 256;
  }

  /** Reading back a length that was written. */
  lemma LengthRoundTrip(value: int)
    requires 0 <= value
    ensures ReadInt32BE(Int32BE(value), 0) == value <==> value < 0x8000_0000
    ensures ReadInt32BE(Int32BE(value), 0) == (if value % WORDS < 0x8000_0000 then value % WORDS else value % WORDS - WORDS)
  {
    hide Word, Int32BE;
    Digits(value % WORDS);
    SameBytes(value);
    if value < WORDS { SmallRemainder(value); }
  }

  /** Writing back a word that was read gives the same four bytes: reading loses nothing. */
  lemma ReadWordIsWhole(buf: Bytes, offset: nat)
    requires offset + 4 <= |buf|
    ensures Int32BE(ReadInt32BE(buf, offset)) == buf[offset..offset + 4]
  {
    hide Int32BE;
    var a: int, b: int, c: int, d: int := buf[offset], buf[offset + 1], buf[offset + 2], buf[offset + 3];
    var word := Word(a, b, c, d);
    DivisionIsUnique(word, 256, (a * 256 + b) * 256 + c);
    DivisionIsUnique((a * 256 + b) * 256 + c, 256, a * 256 + b);
    DivisionIsUnique(a * 256 + b, 256, a);
    HighBytes(word);
    SameBytes(ReadInt32BE(buf, offset));
    SmallRemainder(word);
  }

  lemma SameBytes(value: int)
    ensures Int32BE(value % WORDS) == Int32BE(value)
  {
    SmallRemainder(value % WORDS);
  }

  lemma BuiltLength(msgType: Byte, payload: Bytes, more: Bytes)
    ensures var s := Build(msgType, payload) + more;
      |s| == 5 + |payload| + |more| && s[0] == msgType
      && ReadInt32BE(s, 1) == ReadInt32BE(Int32BE(4 + |payload|), 0)
      && s[5..] == payload + more
  {
  }

  /** The stream begins with exactly this message, and `more` is what follows it. */
  predicate Decodes(s: Bytes, msgType: Byte, payload: Bytes, more: Bytes) {
    HasFrame(s) && PassMessage(s) == Message(msgType, payload) && s[FrameLength(s)..] == more
  }

  /**
    A built message followed by anything is decoded to its own type and payload, and nothing of what follows
    is consumed, exactly when the length fits a signed 32-bit field.
  */
  lemma BuiltMessagesDecode(msgType: Byte, payload: Bytes, more: Bytes)
    ensures Decodes(Build(msgType, payload) + more, msgType, payload, more) <==> 4 + |payload| < 0x8000_0000
  {
    hide PassMessage, ReadInt32BE, Int32BE, Build;
    var s := Build(msgType, payload) + more;
    BuiltLength(msgType, payload, more);
    LengthRoundTrip(4 + |payload|);
    if HasFrame(s) { FrameIsPass(s); MessageType(s); }
    if 4 + |payload| < 0x8000_0000 {
      assert s[5..5 + |payload|] == payload && s[5 + |payload|..] == more by {
        assert s[5..][..|payload|] == payload && s[5..][|payload|..] == more;
      }
    }
  }

  lemma MessageType(s: Bytes)
    requires Passes(s)
    ensures PassMessage(s).msgType == s[0]
  {}

  /** Any sequence of built messages that fit is decoded back to the same messages. */
  lemma {:induction false} BuiltStreamDecodes(messages: seq<Message>)
    requires forall i :: 0 <= i < |messages| ==> 4 + |messages[i].body| < 0x8000_0000
    ensures Frames(BuiltStream(messages)) == messages && Rest(BuiltStream(messages)) == []
    ensures WellFramed(BuiltStream(messages))
    decreases |messages|
  {
    if messages != [] {
      var m := messages[0];
      BuiltMessagesDecode(m.msgType, m.body, BuiltStream(messages[1..]));
      BuiltStreamDecodes(messages[1..]);
      assert messages == [m] + messages[1..];
    }
  }

  function BuiltStream(messages: seq<Message>): Bytes {
    if messages == [] then [] else Build(messages[0].msgType, messages[0].body) + BuiltStream(messages[1..])
  }

  // ---- the typed builders ----

  /** The text before the first zero byte. */
  function CString(s: Bytes): Option<Bytes> {
    if s == [] then None
    else if s[0] == 0 then Some([])
    else
      var rest := CString(s[1..]);
      if rest.None? then None else Some([s[0]] + rest.value)
  }

  /** A terminated text reads back as itself exactly if it holds no zero byte. */
  lemma {:induction false} CStringReadsBack(text: Bytes, more: Bytes)
    ensures CString(text + [0] + more) == Some(text) <==> ZeroFree(text)
    ensures CString(text + [0] + more).Some?
    decreases |text|
  {
    var s := text + [0] + more;
    if text != [] {
      assert s[0] == text[0] && s[1..] == text[1..] + [0] + more;
      CStringReadsBack(text[1..], more);
      assert ZeroFree(text) <==> text[0] != 0 && ZeroFree(text[1..]) by { ZeroFreeHead(text); }
      assert text == [text[0]] + text[1..];
    }
  }

  lemma ZeroFreeHead(text: Bytes)
    requires text != []
    ensures ZeroFree(text) <==> text[0] != 0 && ZeroFree(text[1..])
  {
    if text[0] != 0 && ZeroFree(text[1..]) {
      forall i | 0 <= i < |text| ensures text[i] != 0 { if i > 0 { assert text[1..][i - 1] == text[i]; } }
    }
  }

  /** A query message decodes to type Q and its text, if the text fits and holds no zero byte. */
  lemma SimpleQueryDecodes(sqlText: Bytes, more: Bytes)
    ensures Decodes(BuildSimpleQuery(sqlText) + more, 0x51, sqlText + [0], more) <==> 5 + |sqlText| < 0x8000_0000
    ensures CString(sqlText + [0]) == Some(sqlText) <==> ZeroFree(sqlText)
  {
    hide Decodes, Build;
    BuiltMessagesDecode(0x51, sqlText + [0], more);
    CStringReadsBack(sqlText, []);
    assert sqlText + [0] + [] == sqlText + [0];
  }

  lemma CleartextAuthResponseDecodes(password: Bytes, more: Bytes)
    ensures Decodes(BuildCleartextAuthResponse(password) + more, 0x70, password + [0], more) <==> 5 + |password| < 0x8000_0000
    ensures CString(password + [0]) == Some(password) <==> ZeroFree(password)
  {
    hide Decodes, Build;
    BuiltMessagesDecode(0x70, password + [0], more);
    CStringReadsBack(password, []);
    assert password + [0] + [] == password + [0];
  }

  /** SASLInitialResponse: a mechanism name and a message with its length in front. */
  function ParseSASLInitial(body: Bytes): Option<(Bytes, Bytes)> {
    var mechanism := CString(body);
    if mechanism.None? || |body| < |mechanism.value| + 5 then None
    else
      var length := ReadInt32BE(body, |mechanism.value| + 1);
      var from := |mechanism.value| + 5;
      if length < 0 || |body| != from + length then None else Some((mechanism.value, body[from..]))
  }

  /** The SASL opening decodes to type p, and mechanism and message parse back out of its payload. */
  lemma SASLInitialResponseDecodes(mechanism: Bytes, clientFirst: Bytes, more: Bytes)
    ensures var payload := mechanism + [0] + Int32BE(|clientFirst|) + clientFirst;
      && (Decodes(BuildSASLInitialResponse(mechanism, clientFirst) + more, 0x70, payload, more)
          <==> 9 + |mechanism| + |clientFirst| < 0x8000_0000)
      && (ParseSASLInitial(payload) == Some((mechanism, clientFirst)) <==> ZeroFree(mechanism) && |clientFirst| < 0x8000_0000)
  {
    hide Decodes, Build, Int32BE, ReadInt32BE, CString;
    var n, m := |mechanism|, |clientFirst|;
    var payload := mechanism + [0] + Int32BE(m) + clientFirst;
    BuiltMessagesDecode(0x70, payload, more);
    CStringReadsBack(mechanism, Int32BE(m) + clientFirst);
    assert mechanism + [0] + (Int32BE(m) + clientFirst) == payload;
    assert payload[n + 1..n + 5] == Int32BE(m) && payload[n + 5..] == clientFirst;
    SameWord(payload, n + 1, Int32BE(m));
    LengthRoundTrip(m);
  }

  lemma SameWord(buf: Bytes, offset: nat, word: Bytes)
    requires offset + 4 <= |buf| && buf[offset..offset + 4] == word
    ensures ReadInt32BE(buf, offset) == ReadInt32BE(word, 0)
  {
    assert forall i :: 0 <= i < 4 ==> word[i] == buf[offset + i];
  }

  lemma SASLResponseDecodes(clientFinal: Bytes, more: Bytes)
    ensures Decodes(BuildSASLResponse(clientFinal) + more, 0x70, clientFinal, more) <==> 4 + |clientFinal| < 0x8000_0000
  {
    hide Decodes, Build;
    BuiltMessagesDecode(0x70, clientFinal, more);
  }

  lemma TerminateMessageDecodes(more: Bytes)
    ensures Decodes(BuildTerminateMessage() + more, 0x58, [], more)
  {
    hide Decodes, Build;
    BuiltMessagesDecode(0x58, [], more);
  }

  // ---- NotificationResponse bodies ----

  predicate ZeroFree(s: Bytes) { forall i :: 0 <= i < |s| ==> s[i] != 0 }

  method IndexOfZero(buf: Bytes, from: nat) returns (at: int)
    ensures at == -1 || from <= at < |buf|
    ensures at == -1 ==> forall i :: from <= i < |buf| ==> buf[i] != 0
    ensures at >= 0 ==> buf[at] == 0 && forall i :: from <= i < at ==> buf[i] != 0
  {
    var i := from;
    while i < |buf|
      invariant from <= i
      invariant forall j :: from <= j < i && j < |buf| ==> buf[j] != 0
      decreases |buf| - i
    {
      if buf[i] == 0 {
        return i;
      }
      i := i + 1;
    }
    return -1;
  }

  /** A body is a process id, a channel and a payload, both zero-terminated, and perhaps more bytes. */
  ghost predicate IsNotification(body: Bytes, channel: Bytes, payload: Bytes) {
    exists pid: Bytes, more: Bytes {:trigger pid + channel + [0] + payload + [0] + more} ::
      |pid| == 4 && ZeroFree(channel) && ZeroFree(payload)
      && body == pid + channel + [0] + payload + [0] + more
  }

  /** A notification is reported exactly for the bodies of that form, with their channel and payload. */
  method HandleNotification(body: Bytes) returns (event: Option<(Bytes, Bytes)>)
    ensures event.Some? ==> IsNotification(body, event.value.0, event.value.1)
    ensures event.None? ==> forall channel, payload :: !IsNotification(body, channel, payload)
  {
    var chEnd := IndexOfZero(body, 4);
    if chEnd < 0 {
      forall channel, payload ensures !IsNotification(body, channel, payload) {
        NoSecondZero(body, channel, payload, |body|);
      }
      return None;
    }
    var channel := body[4..chEnd];
    var plEnd := IndexOfZero(body, chEnd + 1);
    if plEnd < 0 {
      forall c, p ensures !IsNotification(body, c, p) {
        NoSecondZero(body, c, p, chEnd);
      }
      return None;
    }
    var payload := body[chEnd + 1..plEnd];
    assert body == body[..4] + channel + [0] + payload + [0] + body[plEnd + 1..];
    event := Some((channel, payload));
  }

  lemma NoSecondZero(body: Bytes, channel: Bytes, payload: Bytes, first: nat)
    requires forall i :: 4 <= i < |body| && i != first ==> body[i] != 0
    ensures !IsNotification(body, channel, payload)
  {
    if IsNotification(body, channel, payload) {
      NotificationHasTwoZeros(body, channel, payload);
    }
  }

  lemma NotificationHasTwoZeros(body: Bytes, channel: Bytes, payload: Bytes)
    requires IsNotification(body, channel, payload)
    ensures |body| > 5 + |channel| + |payload|
    ensures body[4 + |channel|] == 0 && body[5 + |channel| + |payload|] == 0
  {
    var pid, more :| |pid| == 4 && ZeroFree(channel) && ZeroFree(payload)
      && body == pid + channel + [0] + payload + [0] + more;
  }

  lemma AfterProcessId(body: Bytes, channel: Bytes, payload: Bytes) returns (more: Bytes)
    requires IsNotification(body, channel, payload)
    ensures |body| >= 4 && body[4..] == channel + [0] + (payload + [0] + more)
    ensures ZeroFree(channel) && ZeroFree(payload)
  {
    var pid: Bytes, rest: Bytes :|
      |pid| == 4 && ZeroFree(channel) && ZeroFree(payload) && body == pid + channel + [0] + payload + [0] + rest;
    more := rest;
    assert body == pid + (channel + [0] + (payload + [0] + rest));
  }

  /** The channel and payload of a body are determined by it. */
  lemma NotificationIsUnique(body: Bytes, c: Bytes, p: Bytes, c': Bytes, p': Bytes)
    requires IsNotification(body, c, p) && IsNotification(body, c', p')
    ensures c == c' && p == p'
  {
    hide IsNotification, ZeroFree;
    var more := AfterProcessId(body, c, p);
    var more' := AfterProcessId(body, c', p');
    ZeroEnds(c, p + [0] + more, c', p' + [0] + more');
    ZeroEnds(p, more, p', more');
  }

  lemma ZeroEnds(a: Bytes, x: Bytes, b: Bytes, y: Bytes)
    requires ZeroFree(a) && ZeroFree(b) && a + [0] + x == b + [0] + y
    ensures a == b && x == y
  {
    var s := a + [0] + x;
    assert s == b + [0] + y;
    assert s[|a|] == 0 && s[|b|] == 0;
    assert forall i :: 0 <= i < |a| ==> s[i] == a[i] && s[i] != 0;
    assert forall i :: 0 <= i < |b| ==> s[i] == b[i] && s[i] != 0;
    assert |a| == |b|;
    assert a == s[..|a|] && b == s[..|b|] && x == s[|a| + 1..] && y == s[|b| + 1..];
  }
}
