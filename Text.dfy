/** Python's whitespace handling on `str`, as the transcription script uses it:
    `strip()` with no argument, `split()` with no argument and `" ".join(...)`. */
module Text {

  /** Python's `str.isspace()` on one character: the characters that both
      `strip()` and `split()` treat as whitespace. */
  predicate IsSpace(c: char) {
    ('\t' <= c <= '\r') || ('\U{1c}' <= c <= ' ') || c == '\U{85}' || c == '\U{a0}'
    || c == '\U{1680}' || ('\U{2000}' <= c <= '\U{200a}') || c == '\U{2028}' || c == '\U{2029}'
    || c == '\U{202f}' || c == '\U{205f}' || c == '\U{3000}'
  }

  predicate AllSpace(s: string) {
    forall i :: 0 <= i < |s| ==> IsSpace(s[i])
  }

  /** A word as `split()` yields it: no whitespace inside. */
  predicate NoSpace(s: string) {
    forall i :: 0 <= i < |s| ==> !IsSpace(s[i])
  }

  /** Neither starts nor ends with whitespace. */
  predicate Trimmed(s: string) {
    s == [] || (!IsSpace(s[0]) && !IsSpace(s[|s| - 1]))
  }

  /** Number of whitespace characters that start `s`. */
  function LeadingSpaces(s: string): (n: nat)
    ensures n <= |s|
    ensures forall i :: 0 <= i < n ==> IsSpace(s[i])
    ensures n < |s| ==> !IsSpace(s[n])
  {
    if |s| > 0 && IsSpace(s[0]) then 1 + LeadingSpaces(s[1..]) else 0
  }

  /** Number of whitespace characters that end `s`. */
  function TrailingSpaces(s: string): (n: nat)
    ensures n <= |s|
    ensures forall i :: |s| - n <= i < |s| ==> IsSpace(s[i])
    ensures n < |s| ==> !IsSpace(s[|s| - 1 - n])
  {
    if |s| > 0 && IsSpace(s[|s| - 1]) then 1 + TrailingSpaces(s[..|s| - 1]) else 0
  }

  /** Python's `s.lstrip()`. */
  function LStrip(s: string): string {
    s[LeadingSpaces(s)..]
  }

  /** Python's `s.strip()`: `s` without the whitespace at either end. */
  function Strip(s: string): (r: string)
    ensures Trimmed(r)
  {
    var t := LStrip(s);
    var r := t[..|t| - TrailingSpaces(t)];
    assert r != [] ==> r[0] == t[0] && r[|r| - 1] == t[|t| - 1 - TrailingSpaces(t)];
    r
  }

  /** What `strip()` keeps is a slice of the input, and what it cuts off at
      either end is whitespace only. */
  lemma StripIsSlice(s: string)
    ensures exists i, j :: 0 <= i <= j <= |s| && Strip(s) == s[i..j] && AllSpace(s[..i]) && AllSpace(s[j..])
  {
    var i := LeadingSpaces(s);
    var t := s[i..];
    var k := TrailingSpaces(t);
    var j := |s| - k;
    assert Strip(s) == s[i..j];
    assert AllSpace(s[..i]);
    assert AllSpace(s[j..]) by {
      assert s[j..] == t[|t| - k..];
    }
  }

  /** Length of the run of non-whitespace characters that starts `s`. */
  function WordLen(s: string): (n: nat)
    ensures n <= |s|
    ensures forall i :: 0 <= i < n ==> !IsSpace(s[i])
    ensures n < |s| ==> IsSpace(s[n])
  {
    if |s| > 0 && !IsSpace(s[0]) then 1 + WordLen(s[1..]) else 0
  }

  /** Python's `s.split()`: the maximal runs of non-whitespace characters, in order. */
  function Words(s: string): (ws: seq<string>)
    ensures forall w :: w in ws ==> w != [] && NoSpace(w)
    decreases |s|
  {
    var t := LStrip(s);
    if t == [] then []
    else
      var n := WordLen(t);
      assert 0 < n && NoSpace(t[..n]);
      var rest := Words(t[n..]);
      assert forall w :: w in [t[..n]] + rest ==> w == t[..n] || w in rest;
      [t[..n]] + rest
  }

  /** Python's `" ".join(ws)`: starts with the first element. */
  function Join(ws: seq<string>): (r: string)
    ensures ws != [] ==> ws[0] <= r
  {
    if |ws| == 0 then ""
    else if |ws| == 1 then ws[0]
    else ws[0] + " " + Join(ws[1..])
  }

  lemma {:induction false} WordLenOfWordFirst(w: string, rest: string)
    requires NoSpace(w)
    ensures WordLen(w + rest) == |w| + WordLen(rest)
    decreases |w|
  {
    if w != [] {
      assert (w + rest)[1..] == w[1..] + rest;
      WordLenOfWordFirst(w[1..], rest);
    } else {
      assert w + rest == rest;
    }
  }

  /** Splitting a single word gives back that word. */
  lemma WordsOfWord(w: string)
    requires w != [] && NoSpace(w)
    ensures Words(w) == [w]
  {
    WordLenOfWordFirst(w, "");
    assert w + "" == w;
    assert w[|w|..] == "";
  }

  /** A leading whitespace character does not change the split. */
  lemma WordsSkipSpace(c: char, rest: string)
    requires IsSpace(c)
    ensures Words([c] + rest) == Words(rest)
  {
    assert ([c] + rest)[1..] == rest;
    assert LStrip([c] + rest) == LStrip(rest);
  }

  /** A word followed by a space splits off as the first word. */
  lemma WordsOfWordThenSpace(w: string, rest: string)
    requires w != [] && NoSpace(w)
    ensures Words(w + " " + rest) == [w] + Words(rest)
  {
    var s := w + " " + rest;
    assert s == w + (" " + rest);
    assert LStrip(s) == s;
    WordLenOfWordFirst(w, " " + rest);
    assert s[..|w|] == w;
    assert s[|w|..] == " " + rest;
    WordsSkipSpace(' ', rest);
  }

  /** `split()` undoes `" ".join(...)` on a list of words. */
  lemma {:induction false} WordsOfJoin(ws: seq<string>)
    requires forall w :: w in ws ==> w != [] && NoSpace(w)
    ensures Words(Join(ws)) == ws
  {
    if |ws| == 1 {
      assert ws[0] in ws;
      WordsOfWord(ws[0]);
    } else if |ws| > 1 {
      assert ws[0] in ws;
      assert forall w :: w in ws[1..] ==> w in ws;
      var rest := Join(ws[1..]);
      assert Join(ws) == ws[0] + " " + rest;
      WordsOfWordThenSpace(ws[0], rest);
      WordsOfJoin(ws[1..]);
      assert ws == [ws[0]] + ws[1..];
    }
  }

  /** Joining words that are non-empty and trimmed gives a trimmed text,
      non-empty whenever there is a word. */
  lemma {:induction false} JoinTrimmed(ws: seq<string>)
    requires forall w :: w in ws ==> w != [] && Trimmed(w)
    ensures Trimmed(Join(ws))
    ensures ws != [] ==> Join(ws) != []
  {
    if ws != [] {
      assert ws[0] in ws;
    }
    if |ws| > 1 {
      assert forall w :: w in ws[1..] ==> w in ws;
      JoinTrimmed(ws[1..]);
      var j := Join(ws);
      assert j == ws[0] + " " + Join(ws[1..]);
      assert j[0] == ws[0][0];
      assert j[|j| - 1] == Join(ws[1..])[|Join(ws[1..])| - 1];
    }
  }

  /** Appending one more element to a join adds one separating space and the element. */
  lemma {:induction false} JoinSnoc(ws: seq<string>, w: string)
    requires ws != []
    ensures Join(ws + [w]) == Join(ws) + " " + w
  {
    if |ws| == 1 {
      assert ws + [w] == [ws[0], w];
      assert [ws[0], w][1..] == [w];
    } else {
      assert (ws + [w])[1..] == ws[1..] + [w];
      JoinSnoc(ws[1..], w);
    }
  }

  /** Reads `s` left to right, one character at a time: whitespace is dropped,
      and a non-whitespace character that follows whitespace is preceded by one
      space, unless nothing has been written yet. `written` says something has
      been written; `gap` says whitespace was read since the last written character. */
  function CollapseFrom(s: string, written: bool, gap: bool): string
    decreases |s|
  {
    if s == [] then ""
    else if IsSpace(s[0]) then CollapseFrom(s[1..], written, written)
    else (if gap then " " else "") + [s[0]] + CollapseFrom(s[1..], true, false)
  }

  /** `s` with every run of whitespace between two words replaced by a single
      space, and the whitespace at either end removed. */
  function Collapse(s: string): string {
    CollapseFrom(s, false, false)
  }

  /** A word is copied as it is, preceded by a space when a gap was pending. */
  lemma {:induction false} CollapseWord(w: string, rest: string, written: bool, gap: bool)
    requires w != [] && NoSpace(w)
    ensures CollapseFrom(w + rest, written, gap) == (if gap then " " else "") + w + CollapseFrom(rest, true, false)
    decreases |w|
  {
    var s := w + rest;
    assert s[0] == w[0] && s[1..] == w[1..] + rest;
    if |w| == 1 {
      assert w[1..] + rest == rest;
      assert w == [w[0]];
    } else {
      CollapseWord(w[1..], rest, true, false);
      assert w == [w[0]] + w[1..];
    }
  }

  /** A text that starts with a word splits into that word and the split of the rest. */
  lemma WordsOfWordFirst(s: string)
    requires s != [] && !IsSpace(s[0])
    ensures Words(s) == [s[..WordLen(s)]] + Words(s[WordLen(s)..])
  {
    assert LStrip(s) == s;
  }

  /** Joining a first element and the rest: the rest follows after one space, if there is any. */
  lemma JoinCons(w: string, ws: seq<string>)
    ensures Join([w] + ws) == w + (if ws == [] then "" else " " + Join(ws))
  {
    assert ([w] + ws)[1..] == ws;
  }

  /** The words of `s`, each preceded by one space. */
  function GapThenWords(s: string): string {
    if Words(s) == [] then "" else " " + Join(Words(s))
  }

  /** From a word on, reading character by character: the word, preceded by
      one space when a gap was pending, then the rest. */
  lemma {:induction false} CollapseWordThenRest(s: string, written: bool, gap: bool)
    requires s != [] && !IsSpace(s[0])
    ensures CollapseFrom(s, written, gap) == (if gap then " " else "") + s[..WordLen(s)] + GapThenWords(s[WordLen(s)..])
    decreases |s|, 0
  {
    var n := WordLen(s);
    assert s == s[..n] + s[n..];
    CollapseWord(s[..n], s[n..], written, gap);
    CollapseAfterWord(s[n..]);
  }

  /** From a word on, through `split()` and `join`: the word, then the rest. */
  lemma JoinWordThenRest(s: string)
    requires s != [] && !IsSpace(s[0])
    ensures Join(Words(s)) == s[..WordLen(s)] + GapThenWords(s[WordLen(s)..])
  {
    WordsOfWordFirst(s);
    JoinCons(s[..WordLen(s)], Words(s[WordLen(s)..]));
  }

  /** After a word, with a gap pending: the rest of the words, each preceded by one space. */
  lemma {:induction false} CollapseAfterGap(s: string)
    ensures CollapseFrom(s, true, true) == GapThenWords(s)
    decreases |s|, 1
  {
    if s != [] {
      if IsSpace(s[0]) {
        WordsSkipSpace(s[0], s[1..]);
        assert [s[0]] + s[1..] == s;
        CollapseAfterGap(s[1..]);
      } else {
        CollapseWordThenRest(s, true, true);
        JoinWordThenRest(s);
        WordsOfWordFirst(s);
      }
    }
  }

  /** Right after a word, at whitespace or at the end: the rest of the words,
      each preceded by one space. */
  lemma {:induction false} CollapseAfterWord(s: string)
    requires s == [] || IsSpace(s[0])
    ensures CollapseFrom(s, true, false) == GapThenWords(s)
    decreases |s|, 2
  {
    if s != [] {
      WordsSkipSpace(s[0], s[1..]);
      assert [s[0]] + s[1..] == s;
      CollapseAfterGap(s[1..]);
    }
  }

  /** Python's `" ".join(s.split())` is `s` with its whitespace collapsed: this
      ties `split()` to the characters of any input. */
  lemma {:induction false} JoinOfWordsIsCollapse(s: string)
    ensures Join(Words(s)) == Collapse(s)
    decreases |s|
  {
    if s != [] {
      if IsSpace(s[0]) {
        WordsSkipSpace(s[0], s[1..]);
        assert [s[0]] + s[1..] == s;
        JoinOfWordsIsCollapse(s[1..]);
      } else {
        CollapseWordThenRest(s, false, false);
        JoinWordThenRest(s);
      }
    }
  }
}
