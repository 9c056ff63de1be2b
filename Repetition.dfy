/** The final guard against a transcript that repeats itself: split it into
    words and, when the words repeat too much, keep only a prefix of them
    (scripts/local_transcribe.py, lines 107-118). */
module Repetition {
  import opened Text

  /** Fewer words than this, or exactly this many, are never truncated. */
  const MinWordsChecked := 10
  /** Truncation happens when words outnumber distinct words more than this many times. */
  const MaxRatio := 3
  /** A truncated transcript keeps at most this many words. */
  const MaxKeptWords := 50

  /** The distinct words, Python's `set(words)`. */
  function Distinct(ws: seq<string>): set<string> {
    set w | w in ws
  }

  /** More than ten words, and more than three times as many words as distinct words. */
  predicate TooRepetitive(ws: seq<string>) {
    |ws| > MinWordsChecked && |ws| > MaxRatio * |Distinct(ws)|
  }

  /** Python's `min(50, n // 3)`. */
  function KeepCount(n: nat): nat {
    if n / MaxRatio < MaxKeptWords then n / MaxRatio else MaxKeptWords
  }

  /** The script's repetition guard on the collected transcript. When the
      words repeat too much the result is the first `min(50, n // 3)` words
      joined by single spaces: a non-empty prefix of at most 50 words, shorter
      than the input; otherwise the text is returned untouched. */
  function GuardRepetition(text: string): (r: string)
    ensures var ws := Words(text);
      TooRepetitive(ws) ==>
        r == Join(ws[..KeepCount(|ws|)]) && Words(r) == ws[..KeepCount(|ws|)]
        && 1 <= |Words(r)| <= MaxKeptWords && |Words(r)| < |ws| && r != []
    ensures !TooRepetitive(Words(text)) ==> r == text
    ensures r != text <==> TooRepetitive(Words(text))
  {
    var ws := Words(text);
    if TooRepetitive(ws) then
      var k := KeepCount(|ws|);
      assert forall w :: w in ws[..k] ==> w in ws;
      WordsOfJoin(ws[..k]);
      Join(ws[..k])
    else
      text
  }

  /** Every word is among the distinct words, so a non-empty list has at
      least one of them and never more distinct words than words. */
  lemma {:induction false} DistinctBounds(ws: seq<string>)
    ensures |Distinct(ws)| <= |ws|
    ensures ws != [] ==> |Distinct(ws)| >= 1
  {
    if ws != [] {
      var init := ws[..|ws| - 1];
      DistinctBounds(init);
      assert Distinct(ws) == Distinct(init) + {ws[|ws| - 1]} by {
        assert ws == init + [ws[|ws| - 1]];
      }
      assert ws[0] in Distinct(ws);
    }
  }

  /** The script divides as floating-point numbers (`len(words) / len(unique_words) > 3`);
      on more than ten words the set of distinct words is never empty, and the
      test is the same as the integer comparison. */
  lemma RatioTestIsIntegerTest(ws: seq<string>)
    requires |ws| > MinWordsChecked
    ensures |Distinct(ws)| >= 1
    ensures TooRepetitive(ws) <==> (|ws| as real) / (|Distinct(ws)| as real) > MaxRatio as real
  {
    DistinctBounds(ws);
    var n, u := |ws| as real, |Distinct(ws)| as real;
    var q := n / u;
    assert q * u == n;
    if q > 3.0 {
      assert q * u > 3.0 * u;
    } else {
      assert q * u <= 3.0 * u;
    }
  }

  /** The guard never leaves whitespace at either end of a transcript that had none. */
  lemma GuardKeepsTrimmed(text: string)
    requires Trimmed(text)
    ensures Trimmed(GuardRepetition(text))
  {
    var ws := Words(text);
    if TooRepetitive(ws) {
      var kept := ws[..KeepCount(|ws|)];
      forall w | w in kept
        ensures w != [] && Trimmed(w)
      {
        assert w in ws;
      }
      JoinTrimmed(kept);
    }
  }
}
