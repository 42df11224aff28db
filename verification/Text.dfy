/** Rust's string functions: trimming, splitting on whitespace or on a character. */
module Text {

  // ---------------------------------------------------------------- whitespace

  /** `char::is_whitespace`, the Unicode White_Space property. */
  predicate IsWhitespace(c: char) {
    var n := c as int;
    || 9 <= n <= 13 || n == 0x20 || n == 0x85 || n == 0xA0 || n == 0x1680 || 0x2000 <= n <= 0x200A
    || n == 0x2028 || n == 0x2029 || n == 0x202F || n == 0x205F || n == 0x3000
  }

  /** White space, listed. */
  lemma {:induction false} WhitespaceIs(c: char)
    ensures IsWhitespace(c) <==>
            c as int in [9, 10, 11, 12, 13, 32, 133, 160, 5760, 8192, 8193, 8194, 8195, 8196, 8197, 8198, 8199, 8200,
                         8201, 8202, 8232, 8233, 8239, 8287, 12288]
  {
  }

  predicate IsWord(s: string) {
    s != [] && forall i | 0 <= i < |s| :: !IsWhitespace(s[i])
  }

  function TrimStart(s: string): string {
    if s != [] && IsWhitespace(s[0]) then TrimStart(s[1..]) else s
  }

  function TrimEnd(s: string): string {
    if s != [] && IsWhitespace(s[|s| - 1]) then TrimEnd(s[..|s| - 1]) else s
  }

  function Trim(s: string): string {
    TrimEnd(TrimStart(s))
  }

  function WordEnd(s: string): (n: nat)
    ensures n <= |s|
    ensures forall i | 0 <= i < n :: !IsWhitespace(s[i])
    ensures n < |s| ==> IsWhitespace(s[n])
  {
    if s == [] || IsWhitespace(s[0]) then 0 else 1 + WordEnd(s[1..])
  }

  /** `split_whitespace`. */
  function Words(s: string): (w: seq<string>)
    ensures forall i | 0 <= i < |w| :: IsWord(w[i])
    decreases |s|
  {
    if s == [] then []
    else if IsWhitespace(s[0]) then Words(s[1..])
    else
      var n := WordEnd(s);
      [s[..n]] + Words(s[n..])
  }

  function JoinWords(words: seq<string>): string {
    if words == [] then "" else if |words| == 1 then words[0] else words[0] + " " + JoinWords(words[1..])
  }

  lemma {:induction false} WordEndOf(a: string, rest: string)
    requires forall i | 0 <= i < |a| :: !IsWhitespace(a[i])
    requires rest == [] || IsWhitespace(rest[0])
    ensures WordEnd(a + rest) == |a|
  {
    if a == [] {
      assert a + rest == rest;
    } else {
      WordEndOf(a[1..], rest);
      assert (a + rest)[1..] == a[1..] + rest;
    }
  }

  lemma {:induction false} FirstWord(a: string, rest: string)
    requires IsWord(a)
    requires rest == [] || IsWhitespace(rest[0])
    ensures Words(a + rest) == [a] + Words(rest)
  {
    WordEndOf(a, rest);
    assert (a + rest)[0] == a[0];
    assert (a + rest)[..|a|] == a && (a + rest)[|a|..] == rest;
  }

  /** Words joined by single spaces are split back into the same words. */
  lemma {:induction false} WordsOfJoin(words: seq<string>)
    requires forall i | 0 <= i < |words| :: IsWord(words[i])
    ensures Words(JoinWords(words)) == words
    ensures words != [] ==> IsTrimmed(JoinWords(words))
  {
    if |words| == 1 {
      FirstWord(words[0], "");
      assert words[0] + "" == words[0];
    } else if |words| > 1 {
      var rest := JoinWords(words[1..]);
      WordsOfJoin(words[1..]);
      FirstWord(words[0], " " + rest);
      assert Words(" " + rest) == Words(rest) by {
        assert (" " + rest)[1..] == rest;
      }
      assert words == [words[0]] + words[1..];
      var s := JoinWords(words);
      assert s == words[0] + (" " + rest) && s[0] == words[0][0] && s[|s| - 1] == rest[|rest| - 1];
    }
  }

  predicate EndsWith(s: string, suffix: string) {
    |s| >= |suffix| && s[|s| - |suffix|..] == suffix
  }

  predicate IsTrimmed(s: string) {
    s != [] && !IsWhitespace(s[0]) && !IsWhitespace(s[|s| - 1])
  }

  lemma {:induction false} TrimTrimmed(s: string)
    requires IsTrimmed(s)
    ensures Trim(s) == s
  {
  }

  predicate IsBlank(s: string) {
    forall i | 0 <= i < |s| :: IsWhitespace(s[i])
  }

  predicate IsGap(s: string) {
    s != "" && IsBlank(s)
  }

  lemma {:induction false} TrimStartPadded(lead: string, s: string)
    requires IsBlank(lead) && s != "" && !IsWhitespace(s[0])
    ensures TrimStart(lead + s) == s
  {
    if lead == "" {
      assert lead + s == s;
    } else {
      assert (lead + s)[0] == lead[0] && (lead + s)[1..] == lead[1..] + s;
      TrimStartPadded(lead[1..], s);
    }
  }

  lemma {:induction false} TrimEndPadded(s: string, tail: string)
    requires IsBlank(tail) && TrimEnd(s) == s
    ensures TrimEnd(s + tail) == s
  {
    if tail == "" {
      assert s + tail == s;
    } else {
      var n := |tail| - 1;
      var padded := s + tail;
      assert padded[|padded| - 1] == tail[n] && padded[..|padded| - 1] == s + tail[..n];
      TrimEndPadded(s, tail[..n]);
    }
  }

  /** Trimming removes exactly the whitespace around a trimmed string. */
  lemma {:induction false} TrimPadded(lead: string, s: string, tail: string)
    requires IsBlank(lead) && IsTrimmed(s) && IsBlank(tail)
    ensures Trim(lead + s + tail) == s && TrimStart(lead + s + tail) == s + tail
  {
    assert lead + s + tail == lead + (s + tail) && (s + tail)[0] == s[0];
    TrimStartPadded(lead, s + tail);
    TrimEndPadded(s, tail);
  }

  lemma {:induction false} TrimStartParts(s: string) returns (lead: string)
    ensures s == lead + TrimStart(s) && IsBlank(lead)
    ensures TrimStart(s) == "" || !IsWhitespace(TrimStart(s)[0])
  {
    lead := "";
    if s != "" && IsWhitespace(s[0]) {
      var more := TrimStartParts(s[1..]);
      lead := [s[0]] + more;
      assert s == [s[0]] + s[1..];
    }
  }

  lemma {:induction false} TrimEndParts(s: string) returns (tail: string)
    ensures s == TrimEnd(s) + tail && IsBlank(tail)
    ensures TrimEnd(s) == "" || !IsWhitespace(TrimEnd(s)[|TrimEnd(s)| - 1])
  {
    tail := "";
    if s != "" && IsWhitespace(s[|s| - 1]) {
      var n := |s| - 1;
      var more := TrimEndParts(s[..n]);
      tail := more + [s[n]];
      assert s == s[..n] + [s[n]];
    }
  }

  /** A string is its trimmed middle with whitespace on both sides. */
  lemma {:induction false} TrimParts(s: string) returns (lead: string, tail: string)
    ensures s == lead + Trim(s) + tail && IsBlank(lead) && IsBlank(tail)
    ensures Trim(s) == "" || IsTrimmed(Trim(s))
  {
    lead := TrimStartParts(s);
    tail := TrimEndParts(TrimStart(s));
    assert Trim(s) != "" ==> Trim(s)[0] == TrimStart(s)[0];
  }

  lemma {:induction false} SkipBlank(gap: string, s: string)
    requires IsBlank(gap)
    ensures Words(gap + s) == Words(s)
  {
    if gap == "" {
      assert gap + s == s;
    } else {
      assert (gap + s)[0] == gap[0] && (gap + s)[1..] == gap[1..] + s;
      SkipBlank(gap[1..], s);
    }
  }

  lemma {:induction false} TwoWords(a: string, gap: string, b: string)
    requires IsWord(a) && IsGap(gap) && IsWord(b)
    ensures Words(a + gap + b) == [a, b]
  {
    assert a + gap + b == a + (gap + b) && (gap + b)[0] == gap[0];
    FirstWord(a, gap + b);
    SkipBlank(gap, b);
    FirstWord(b, "");
    assert b + "" == b;
  }

  lemma {:induction false} OneWord(s: string) returns (lead: string, tail: string)
    requires |Words(s)| == 1
    ensures s == lead + Words(s)[0] + tail && IsBlank(lead) && IsBlank(tail)
    decreases |s|
  {
    if IsWhitespace(s[0]) {
      var more;
      more, tail := OneWord(s[1..]);
      lead := [s[0]] + more;
      assert s == [s[0]] + (more + Words(s)[0] + tail);
    } else {
      var n := WordEnd(s);
      lead, tail := "", s[n..];
      assert Words(s[n..]) == [];
      NoWordsIsBlank(s[n..]);
      assert "" + s[..n] + s[n..] == s;
    }
  }

  lemma {:induction false} NoWordsIsBlank(s: string)
    requires Words(s) == []
    ensures IsBlank(s)
  {
    if s != "" {
      NoWordsIsBlank(s[1..]);
    }
  }

  lemma {:induction false} LastOfConcat(a: string, b: string)
    ensures b != "" ==> (a + b)[|a + b| - 1] == b[|b| - 1]
  {
  }

  lemma {:induction false} FirstAfter(a: string, b: string)
    ensures b != "" ==> (a + b)[|a|] == b[0]
  {
  }

  /** A trimmed string of two words is those words with whitespace between them. */
  lemma {:induction false} GapBetween(s: string) returns (gap: string)
    requires IsTrimmed(s) && |Words(s)| == 2
    ensures IsGap(gap) && s == Words(s)[0] + gap + Words(s)[1]
  {
    var n := WordEnd(s);
    var lead, tail := OneWord(s[n..]);
    assert s == s[..n] + s[n..];
    gap := lead;
    var second := Words(s[n..])[0];
    LastOfConcat(s[..n] + lead + second, tail);
    FirstAfter(s[..n] + lead, second + tail);
    assert s == s[..n] + lead + second + tail == s[..n] + lead + (second + tail);
  }

  // ---------------------------------------------------------------- splitting on a character

  function FirstAt(s: string, c: char): (n: nat)
    ensures n <= |s| && c !in s[..n] && (n < |s| ==> s[n] == c)
  {
    if s == [] || s[0] == c then 0 else 1 + FirstAt(s[1..], c)
  }

  /** `str::split` on a character: always at least one piece. */
  function Split(s: string, c: char): (pieces: seq<string>)
    ensures pieces != []
    decreases |s|
  {
    var n := FirstAt(s, c);
    if n == |s| then [s] else [s[..n]] + Split(s[n + 1..], c)
  }

  function Join(pieces: seq<string>, c: char): string
    requires pieces != []
  {
    if |pieces| == 1 then pieces[0] else pieces[0] + [c] + Join(pieces[1..], c)
  }

  ghost predicate Free(pieces: seq<string>, c: char) {
    forall i | 0 <= i < |pieces| :: c !in pieces[i]
  }

  lemma {:induction false} FirstAtOf(a: string, c: char, b: string)
    requires c !in a
    ensures FirstAt(a + [c] + b, c) == |a| && FirstAt(a, c) == |a|
  {
    if a != [] {
      var s := a + [c] + b;
      assert s[0] == a[0] && s[1..] == a[1..] + [c] + b;
      FirstAtOf(a[1..], c, b);
    }
  }

  lemma {:induction false} SplitHead(a: string, c: char, b: string)
    requires c !in a
    ensures Split(a + [c] + b, c) == [a] + Split(b, c)
  {
    var s := a + [c] + b;
    FirstAtOf(a, c, b);
    assert s[..|a|] == a && s[|a| + 1..] == b;
  }

  /** Splitting recovers joined pieces that do not hold the separator. */
  lemma {:induction false} SplitOfJoin(pieces: seq<string>, c: char)
    requires pieces != [] && Free(pieces, c)
    ensures Split(Join(pieces, c), c) == pieces
  {
    if |pieces| == 1 {
      FirstAtOf(pieces[0], c, "");
      assert pieces == [pieces[0]];
    } else {
      SplitOfJoin(pieces[1..], c);
      SplitHead(pieces[0], c, Join(pieces[1..], c));
      assert pieces == [pieces[0]] + pieces[1..];
    }
  }

  lemma {:induction false} JoinTerminated(pieces: seq<string>, c: char)
    requires pieces != []
    ensures Join(pieces + [""], c) == Join(pieces, c) + [c]
  {
    if |pieces| > 1 {
      JoinTerminated(pieces[1..], c);
      assert (pieces + [""])[1..] == pieces[1..] + [""];
    } else {
      assert (pieces + [""])[1..] == [""];
    }
  }
}
