/** Collecting the segment texts the speech model yields into one transcript,
    with the guard that stops at a run of identical segments
    (scripts/local_transcribe.py, lines 72-102). */
module Segments {
  import opened Text

  /** A segment whose stripped text is this long or shorter adds no text. */
  const MaxDroppedLength := 2
  /** The repetition counter value at which collection stops. */
  const RepeatLimit := 4

  /** Each segment's text with surrounding whitespace removed. */
  function StripAll(segments: seq<string>): (ts: seq<string>)
    ensures |ts| == |segments|
    ensures forall i :: 0 <= i < |ts| ==> ts[i] == Strip(segments[i])
  {
    seq(|segments|, i requires 0 <= i < |segments| => Strip(segments[i]))
  }

  /** The stripped text at position `j`, where position -1 stands for the
      empty text that `last_segment_text` starts with. */
  function Padded(ts: seq<string>, j: int): string
    requires j < |ts|
  {
    if j < 0 then "" else ts[j]
  }

  /** The repetition counter after the segment at `i` has been examined:
      0 when its text differs from the previous one, one more than before
      when it is the same. */
  function RepeatCount(ts: seq<string>, i: nat): (r: nat)
    requires i < |ts|
    ensures r <= i + 1
    ensures r > 0 <==> ts[i] == Padded(ts, i - 1)
  {
    if ts[i] != Padded(ts, i - 1) then 0
    else if i == 0 then 1
    else RepeatCount(ts, i - 1) + 1
  }

  /** The segment at `i` is the fifth of five consecutive identical stripped
      texts, counting the initial empty text before the first segment. */
  predicate FiveIdentical(ts: seq<string>, i: nat)
    requires i < |ts|
  {
    3 <= i && forall j :: i - 4 <= j < i ==> Padded(ts, j) == ts[i]
  }

  /** The first position from `i` on whose segment brings the counter to the
      limit, or `|ts|` when there is none. */
  function StopFrom(ts: seq<string>, i: nat): (k: nat)
    requires i <= |ts|
    ensures i <= k <= |ts|
    ensures forall j :: i <= j < k ==> RepeatCount(ts, j) < RepeatLimit
    ensures k < |ts| ==> RepeatCount(ts, k) >= RepeatLimit
    decreases |ts| - i
  {
    if i == |ts| || RepeatCount(ts, i) >= RepeatLimit then i else StopFrom(ts, i + 1)
  }

  /** Where the loop stops: the segments before it are the ones examined. */
  function StopIndex(ts: seq<string>): nat {
    StopFrom(ts, 0)
  }

  /** The stripped texts of the segments the loop examines. */
  function Examined(segments: seq<string>): seq<string> {
    var ts := StripAll(segments);
    ts[..StopIndex(ts)]
  }

  /** The stripped texts longer than the dropped length, in order. */
  function Kept(ts: seq<string>): (ks: seq<string>)
    ensures |ks| <= |ts|
  {
    if ts == [] then []
    else
      var last := ts[|ts| - 1];
      Kept(ts[..|ts| - 1]) + (if |last| > MaxDroppedLength then [last] else [])
  }

  /** A text is kept exactly when it is one of the stripped texts and is
      longer than the dropped length. */
  lemma {:induction false} KeptMembers(ts: seq<string>)
    ensures forall w :: w in Kept(ts) <==> w in ts && |w| > MaxDroppedLength
  {
    if ts != [] {
      var init, last := ts[..|ts| - 1], ts[|ts| - 1];
      KeptMembers(init);
      assert ts == init + [last];
    }
  }

  /** The accumulator `transcribed_text`: every kept text followed by one space. */
  function Spaced(ws: seq<string>): string {
    if ws == [] then "" else Spaced(ws[..|ws| - 1]) + ws[|ws| - 1] + " "
  }

  /** The transcript collected from the segments: the kept texts of the
      examined segments joined by single spaces. It has no whitespace at
      either end, and is empty exactly when no text was kept. */
  function Assemble(segments: seq<string>): (r: string)
    ensures Trimmed(r)
    ensures r == [] <==> Kept(Examined(segments)) == []
  {
    var ks := Kept(Examined(segments));
    KeptStripped(segments, |Examined(segments)|);
    JoinTrimmed(ks);
    Join(ks)
  }

  /** Every kept text is a stripped segment text longer than two characters. */
  lemma KeptStripped(segments: seq<string>, k: nat)
    requires k <= |segments|
    ensures forall w :: w in Kept(StripAll(segments)[..k]) ==> |w| > MaxDroppedLength && Trimmed(w)
  {
    var ts := StripAll(segments);
    KeptMembers(ts[..k]);
    forall w | w in Kept(ts[..k])
      ensures |w| > MaxDroppedLength && Trimmed(w)
    {
      assert w in ts[..k];
    }
  }

  /** The collection loop of the script: strip each segment, track the run of
      identical texts, stop at the segment that brings the counter to the
      limit, append the texts longer than two characters with a space, and
      strip the result. */
  method CollectText(segments: seq<string>) returns (text: string)
    ensures text == Assemble(segments)
    ensures Trimmed(text)
  {
    ghost var ts := StripAll(segments);
    var transcribed := "";
    var lastText := "";
    var repetitions := 0;
    var i := 0;
    while i < |segments|
      invariant i <= |segments|
      invariant StopFrom(ts, i) == StopIndex(ts)
      invariant lastText == Padded(ts, i - 1)
      invariant repetitions == if i == 0 then 0 else RepeatCount(ts, i - 1)
      invariant transcribed == Spaced(Kept(ts[..i]))
    {
      var segmentText := Strip(segments[i]);
      assert segmentText == ts[i];
      if segmentText == lastText {
        repetitions := repetitions + 1;
        if repetitions >= RepeatLimit {
          break;
        }
      } else {
        repetitions := 0;
        lastText := segmentText;
      }
      assert repetitions == RepeatCount(ts, i) < RepeatLimit;
      assert StopFrom(ts, i + 1) == StopIndex(ts);
      if |segmentText| > MaxDroppedLength {
        transcribed := transcribed + segmentText + " ";
      }
      AccumulatorStep(ts, i);
      assert transcribed == Spaced(Kept(ts[..i + 1]));
      assert lastText == Padded(ts, i);
      i := i + 1;
    }
    assert i == StopIndex(ts);
    AccumulatorStrips(segments, i);
    text := Strip(transcribed);
  }

  /** The stop position is the first one whose counter reaches the limit. */
  lemma StopIndexUnique(ts: seq<string>, k: nat)
    requires k <= |ts|
    requires forall j :: 0 <= j < k ==> RepeatCount(ts, j) < RepeatLimit
    requires k < |ts| ==> RepeatCount(ts, k) >= RepeatLimit
    ensures StopIndex(ts) == k
  {
  }

  lemma KeptSnoc(ws: seq<string>, t: string)
    ensures Kept(ws + [t]) == Kept(ws) + (if |t| > MaxDroppedLength then [t] else [])
  {
    assert (ws + [t])[..|ws|] == ws;
  }

  lemma SpacedSnoc(ws: seq<string>, t: string)
    ensures Spaced(ws + [t]) == Spaced(ws) + t + " "
  {
    assert (ws + [t])[..|ws|] == ws;
  }

  /** One loop step: the accumulator grows by the segment's text and a space,
      or not at all when the text is too short. */
  lemma AccumulatorStep(ts: seq<string>, i: nat)
    requires i < |ts|
    ensures |ts[i]| > MaxDroppedLength ==> Spaced(Kept(ts[..i + 1])) == Spaced(Kept(ts[..i])) + ts[i] + " "
    ensures |ts[i]| <= MaxDroppedLength ==> Spaced(Kept(ts[..i + 1])) == Spaced(Kept(ts[..i]))
  {
    assert ts[..i + 1] == ts[..i] + [ts[i]];
    KeptSnoc(ts[..i], ts[i]);
    if |ts[i]| > MaxDroppedLength {
      SpacedSnoc(Kept(ts[..i]), ts[i]);
    } else {
      assert Kept(ts[..i]) + [] == Kept(ts[..i]);
    }
  }

  /** Stripping the final accumulator gives the kept texts joined by single spaces. */
  lemma AccumulatorStrips(segments: seq<string>, k: nat)
    requires k <= |segments|
    ensures Strip(Spaced(Kept(StripAll(segments)[..k]))) == Join(Kept(StripAll(segments)[..k]))
  {
    KeptStripped(segments, k);
    SpacedStrips(Kept(StripAll(segments)[..k]));
  }

  /** Each kept text followed by a space, stripped, is the texts joined by single spaces. */
  lemma {:induction false} SpacedIsJoinThenSpace(ws: seq<string>)
    requires ws != []
    ensures Spaced(ws) == Join(ws) + " "
    decreases |ws|
  {
    var init := ws[..|ws| - 1];
    if init == [] {
      assert ws == [ws[0]];
    } else {
      SpacedIsJoinThenSpace(init);
      JoinSnoc(init, ws[|ws| - 1]);
      assert init + [ws[|ws| - 1]] == ws;
    }
  }

  lemma StripOneTrailingSpace(s: string)
    requires s != [] && Trimmed(s)
    ensures Strip(s + " ") == s
  {
    var t := s + " ";
    assert LeadingSpaces(t) == 0;
    assert t[..|t| - 1] == s;
    assert TrailingSpaces(t) == 1;
    assert t[0..] == t;
  }

  lemma SpacedStrips(ws: seq<string>)
    requires forall w :: w in ws ==> |w| > MaxDroppedLength && Trimmed(w)
    ensures Strip(Spaced(ws)) == Join(ws)
  {
    if ws != [] {
      SpacedIsJoinThenSpace(ws);
      JoinTrimmed(ws);
      StripOneTrailingSpace(Join(ws));
    }
  }

  /** The counter counts the run of identical texts: it is at least `k`
      exactly when the `k` texts before position `i` (the initial empty text
      included) all equal the text at `i`. */
  lemma {:induction false} RepeatCountIsRunLength(ts: seq<string>, i: nat, k: nat)
    requires i < |ts|
    ensures RepeatCount(ts, i) >= k <==> (k <= i + 1 && forall j :: i - k <= j < i ==> Padded(ts, j) == ts[i])
    decreases i
  {
    if k == 0 {
    } else if ts[i] != Padded(ts, i - 1) {
      assert RepeatCount(ts, i) == 0;
    } else if i == 0 {
      assert RepeatCount(ts, i) == 1;
    } else {
      RepeatCountIsRunLength(ts, i - 1, k - 1);
      assert ts[i - 1] == ts[i];
      assert RepeatCount(ts, i) == RepeatCount(ts, i - 1) + 1;
    }
  }

  /** The loop stops at the first segment that is the fifth of five identical
      consecutive texts, and no segment before it is. */
  lemma StopsAtFirstFiveIdentical(ts: seq<string>)
    ensures StopIndex(ts) <= |ts|
    ensures forall i :: 0 <= i < StopIndex(ts) ==> !FiveIdentical(ts, i)
    ensures StopIndex(ts) < |ts| ==> FiveIdentical(ts, StopIndex(ts))
  {
    forall i | 0 <= i < |ts|
      ensures RepeatCount(ts, i) >= RepeatLimit <==> FiveIdentical(ts, i)
    {
      RepeatCountIsRunLength(ts, i, RepeatLimit);
    }
  }

  /** Without five identical consecutive texts every segment is examined. */
  lemma NoRunKeepsAll(segments: seq<string>)
    requires forall i :: 0 <= i < |segments| ==> !FiveIdentical(StripAll(segments), i)
    ensures Assemble(segments) == Join(Kept(StripAll(segments)))
  {
    var ts := StripAll(segments);
    StopsAtFirstFiveIdentical(ts);
    assert ts[..|ts|] == ts;
  }

  lemma {:induction false} RepeatCountOfPrefix(ts: seq<string>, us: seq<string>, i: nat)
    requires i < |ts| <= |us| && ts == us[..|ts|]
    ensures RepeatCount(ts, i) == RepeatCount(us, i)
    decreases i
  {
    assert ts[i] == us[i];
    if i > 0 {
      assert ts[i - 1] == us[i - 1];
      RepeatCountOfPrefix(ts, us, i - 1);
    }
  }

  lemma StripAllPrefix(segments: seq<string>, later: seq<string>)
    ensures StripAll(segments + later)[..|segments|] == StripAll(segments)
  {
    var us := StripAll(segments + later);
    assert forall i :: 0 <= i < |segments| ==> (segments + later)[i] == segments[i];
  }

  /** A stop inside a prefix is the stop of every extension of it. */
  lemma StopIndexOfPrefix(ts: seq<string>, us: seq<string>)
    requires |ts| <= |us| && ts == us[..|ts|]
    requires StopIndex(ts) < |ts|
    ensures StopIndex(us) == StopIndex(ts)
  {
    var k := StopIndex(ts);
    forall j | 0 <= j <= k
      ensures RepeatCount(ts, j) == RepeatCount(us, j)
    {
      RepeatCountOfPrefix(ts, us, j);
    }
    StopIndexUnique(us, k);
  }

  /** Once the loop has stopped, segments that come later change nothing. */
  lemma LaterSegmentsIgnored(segments: seq<string>, later: seq<string>)
    requires StopIndex(StripAll(segments)) < |segments|
    ensures Assemble(segments + later) == Assemble(segments)
  {
    var ts, us := StripAll(segments), StripAll(segments + later);
    StripAllPrefix(segments, later);
    StopIndexOfPrefix(ts, us);
    var k := StopIndex(ts);
    assert us[..k] == ts[..k];
  }

  /** Four leading segments that strip to nothing stop the collection at the
      fourth: the empty text the script starts from counts as their predecessor,
      so nothing is transcribed whatever follows. */
  lemma LeadingBlanksSilence(segments: seq<string>)
    requires |segments| >= 4
    requires forall i :: 0 <= i < 4 ==> Strip(segments[i]) == ""
    ensures Assemble(segments) == ""
  {
    var ts := StripAll(segments);
    assert ts[0] == "" && ts[1] == "" && ts[2] == "" && ts[3] == "";
    assert RepeatCount(ts, 0) == 1;
    assert RepeatCount(ts, 1) == 2;
    assert RepeatCount(ts, 2) == 3;
    assert RepeatCount(ts, 3) == 4;
    var k := StopIndex(ts);
    assert k <= 3;
    var examined := ts[..k];
    assert forall j :: 0 <= j < |examined| ==> examined[j] == "";
    KeptOfShort(examined);
  }

  lemma {:induction false} KeptOfShort(ts: seq<string>)
    requires forall j :: 0 <= j < |ts| ==> |ts[j]| <= MaxDroppedLength
    ensures Kept(ts) == []
  {
    if ts != [] {
      KeptOfShort(ts[..|ts| - 1]);
    }
  }

  lemma {:induction false} KeptConcat(a: seq<string>, b: seq<string>)
    ensures Kept(a + b) == Kept(a) + Kept(b)
    decreases |b|
  {
    if b == [] {
      assert a + b == a;
    } else {
      var init, last := b[..|b| - 1], b[|b| - 1];
      KeptConcat(a, init);
      assert (a + b)[..|a + b| - 1] == a + init;
      assert b[..|b| - 1] == init;
    }
  }

  /** A segment whose stripped text is two characters or shorter contributes
      nothing: the kept texts are the same without it. */
  lemma ShortSegmentAddsNothing(ts: seq<string>, i: nat)
    requires i < |ts| && |ts[i]| <= MaxDroppedLength
    ensures Kept(ts[..i] + ts[i + 1..]) == Kept(ts)
  {
    assert ts == ts[..i] + [ts[i]] + ts[i + 1..];
    KeptConcat(ts[..i] + [ts[i]], ts[i + 1..]);
    KeptConcat(ts[..i], ts[i + 1..]);
    KeptSnoc(ts[..i], ts[i]);
    assert Kept(ts[..i]) + [] == Kept(ts[..i]);
  }
}
