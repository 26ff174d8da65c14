/** The few Python `str` operations the validators rely on: `isspace`/`split()`,
    `lower()`, `isdigit()` and `endswith()`, over `string` = `seq<char>`. */
module Text {

  /** The characters Python's `str.split()` with no argument treats as separators. */
  predicate IsSpace(c: char) {
    || '\t' <= c <= '\r'
    || '\U{1C}' <= c <= ' '
    || c == '\U{85}' || c == '\U{A0}' || c == '\U{1680}'
    || '\U{2000}' <= c <= '\U{200A}'
    || c == '\U{2028}' || c == '\U{2029}' || c == '\U{202F}' || c == '\U{205F}'
    || c == '\U{3000}'
  }

  /** The decimal digits `0`-`9`; see README for what `str.isdigit` accepts beyond them. */
  predicate IsDigit(c: char) {
    '0' <= c <= '9'
  }

  predicate AllDigits(s: string) {
    forall i :: 0 <= i < |s| ==> IsDigit(s[i])
  }

  predicate NoSpace(s: string) {
    forall i :: 0 <= i < |s| ==> !IsSpace(s[i])
  }

  predicate AllSpace(s: string) {
    forall i :: 0 <= i < |s| ==> IsSpace(s[i])
  }

  /** Upper case letters of the Latin, Latin-1 and Cyrillic blocks. */
  predicate IsUpper(c: char) {
    || 'A' <= c <= 'Z'
    || ('\U{C0}' <= c <= '\U{DE}' && c != '\U{D7}')
    || '\U{400}' <= c <= '\U{42F}'
  }

  /** `str.lower` on one character, for the letters `IsUpper` names. */
  function Lower(c: char): (l: char)
    ensures !IsUpper(l)
    ensures !IsUpper(c) ==> l == c
  {
    if 'A' <= c <= 'Z' || ('\U{C0}' <= c <= '\U{DE}' && c != '\U{D7}') || '\U{410}' <= c <= '\U{42F}' then
      (c as int + 32) as char
    else if '\U{400}' <= c <= '\U{40F}' then
      (c as int + 80) as char
    else
      c
  }

  /** Python `str.lower()`, one character at a time. */
  function LowerString(s: string): (r: string)
    ensures |r| == |s|
    ensures forall i :: 0 <= i < |s| ==> r[i] == Lower(s[i])
    ensures forall i :: 0 <= i < |r| ==> !IsUpper(r[i])
    ensures (forall i :: 0 <= i < |s| ==> !IsUpper(s[i])) ==> r == s
  {
    seq(|s|, i requires 0 <= i < |s| => Lower(s[i]))
  }

  /** Lower-casing twice is lower-casing once. */
  lemma LowerStringIdempotent(s: string)
    ensures LowerString(LowerString(s)) == LowerString(s)
  {
    var l := LowerString(s);
    forall i | 0 <= i < |s|
      ensures LowerString(l)[i] == l[i]
    {
      assert !IsUpper(l[i]);
    }
  }

  /** Python `s.endswith(suffix)` (case-sensitive). */
  predicate EndsWith(s: string, suffix: string) {
    |suffix| <= |s| && s[|s| - |suffix|..] == suffix
  }

  /** `endswith` holds exactly when the string is some prefix followed by the suffix. */
  lemma EndsWithIffConcat(s: string, suffix: string)
    ensures EndsWith(s, suffix) <==> exists p :: s == p + suffix
  {
    if EndsWith(s, suffix) {
      assert s == s[..|s| - |suffix|] + suffix;
    }
    if exists p :: s == p + suffix {
      var p :| s == p + suffix;
      assert s[|s| - |suffix|..] == suffix;
    }
  }

  /** The string with its leading separators removed. */
  function DropSpaces(s: string): (t: string)
    ensures |t| <= |s| && t == s[|s| - |t|..]
    ensures |t| > 0 ==> !IsSpace(t[0])
    ensures AllSpace(s[..|s| - |t|])
    ensures |t| == 0 <==> AllSpace(s)
  {
    if |s| > 0 && IsSpace(s[0]) then DropSpaces(s[1..]) else s
  }

  /** The longest prefix free of separators. */
  function Token(s: string): (w: string)
    ensures |w| <= |s| && w == s[..|w|]
    ensures NoSpace(w)
    ensures |w| < |s| ==> IsSpace(s[|w|])
  {
    if |s| > 0 && !IsSpace(s[0]) then [s[0]] + Token(s[1..]) else []
  }

  /** Python `s.split()`: the maximal runs of non-separator characters, in order. */
  function Words(s: string): (ws: seq<string>)
    ensures forall i :: 0 <= i < |ws| ==> |ws[i]| > 0 && NoSpace(ws[i])
    ensures |ws| == 0 <==> AllSpace(s)
    decreases |s|
  {
    var t := DropSpaces(s);
    if |t| == 0 then []
    else
      var w := Token(t);
      assert |w| > 0 && t[0] == w[0] by { assert |w| < |t| ==> IsSpace(t[|w|]); }
      var ws' := Words(t[|w|..]);
      ConsOfWords(w, ws');
      [w] + ws'
  }

  /** Prefixing a non-empty, separator-free word keeps a list of words such. */
  lemma ConsOfWords(w: string, ws: seq<string>)
    requires |w| > 0 && NoSpace(w)
    requires forall i :: 0 <= i < |ws| ==> |ws[i]| > 0 && NoSpace(ws[i])
    ensures forall i :: 0 <= i < |[w] + ws| ==> |([w] + ws)[i]| > 0 && NoSpace(([w] + ws)[i])
  {
    forall i | 0 <= i < |[w] + ws|
      ensures |([w] + ws)[i]| > 0 && NoSpace(([w] + ws)[i])
    {
      if i > 0 {
        assert ([w] + ws)[i] == ws[i - 1];
      }
    }
  }

  /** The characters of `s` that are not separators. */
  function Squeeze(s: string): (r: string)
  {
    if |s| == 0 then [] else if IsSpace(s[0]) then Squeeze(s[1..]) else [s[0]] + Squeeze(s[1..])
  }

  function Concat(ws: seq<string>): string
  {
    if |ws| == 0 then [] else ws[0] + Concat(ws[1..])
  }

  lemma {:induction false} SqueezeAppend(a: string, b: string)
    ensures Squeeze(a + b) == Squeeze(a) + Squeeze(b)
    decreases |a|
  {
    if |a| == 0 {
      assert a + b == b;
    } else {
      assert (a + b)[1..] == a[1..] + b;
      SqueezeAppend(a[1..], b);
    }
  }

  lemma {:induction false} SqueezeAllSpace(s: string)
    requires AllSpace(s)
    ensures Squeeze(s) == []
    decreases |s|
  {
    if |s| > 0 {
      SqueezeAllSpace(s[1..]);
    }
  }

  lemma {:induction false} SqueezeNoSpace(s: string)
    requires NoSpace(s)
    ensures Squeeze(s) == s
    decreases |s|
  {
    if |s| > 0 {
      SqueezeNoSpace(s[1..]);
      assert s == [s[0]] + s[1..];
    }
  }

  lemma WordsUnfold(s: string)
    requires |DropSpaces(s)| > 0
    ensures Words(s) == [Token(DropSpaces(s))] + Words(DropSpaces(s)[|Token(DropSpaces(s))|..])
  {
  }

  lemma SqueezeDropSpaces(s: string)
    ensures Squeeze(s) == Squeeze(DropSpaces(s))
  {
    var t := DropSpaces(s);
    var spaces := s[..|s| - |t|];
    assert s == spaces + t;
    SqueezeAppend(spaces, t);
    SqueezeAllSpace(spaces);
  }

  lemma SqueezeToken(t: string)
    ensures Squeeze(t) == Token(t) + Squeeze(t[|Token(t)|..])
  {
    var w := Token(t);
    assert t == w + t[|w|..];
    SqueezeAppend(w, t[|w|..]);
    SqueezeNoSpace(w);
  }

  /** Splitting loses exactly the separators: joining the words back gives the
      string with every separator removed. */
  lemma {:induction false} WordsLoseOnlySeparators(s: string)
    ensures Concat(Words(s)) == Squeeze(s)
    decreases |s|
  {
    var t := DropSpaces(s);
    SqueezeDropSpaces(s);
    if |t| == 0 {
      assert Words(s) == [];
    } else {
      var w := Token(t);
      var rest := t[|w|..];
      SqueezeToken(t);
      WordsLoseOnlySeparators(rest);
      WordsUnfold(s);
      var ws := Words(s);
      assert ws[0] == w && ws[1..] == Words(rest);
    }
  }

  lemma {:induction false} TokenOfWord(w: string, rest: string)
    requires NoSpace(w) && (|rest| == 0 || IsSpace(rest[0]))
    ensures Token(w + rest) == w
    decreases |w|
  {
    if |w| == 0 {
      assert w + rest == rest;
    } else {
      assert (w + rest)[1..] == w[1..] + rest;
      TokenOfWord(w[1..], rest);
      assert w == [w[0]] + w[1..];
    }
  }

  /** A word followed by a separator (or by nothing) is split off as the first word. */
  lemma WordsCons(w: string, rest: string)
    requires |w| > 0 && NoSpace(w) && (|rest| == 0 || IsSpace(rest[0]))
    ensures Words(w + rest) == [w] + Words(rest)
  {
    var s := w + rest;
    assert s[0] == w[0];
    assert DropSpaces(s) == s;
    TokenOfWord(w, rest);
    assert s[|w|..] == rest;
  }

  /** Leading separators do not change the split. */
  lemma WordsSkipSpace(c: char, s: string)
    requires IsSpace(c)
    ensures Words([c] + s) == Words(s)
  {
    assert ([c] + s)[1..] == s;
    assert DropSpaces([c] + s) == DropSpaces(s);
  }

  /** Two words joined by one space split back into the two words. */
  lemma WordsOfTwo(w0: string, w1: string)
    requires |w0| > 0 && NoSpace(w0) && |w1| > 0 && NoSpace(w1)
    ensures Words(w0 + " " + w1) == [w0, w1]
  {
    assert Words(" " + w1) == [w1] by {
      WordsCons(w1, "");
      assert w1 + "" == w1;
      assert Words("") == [];
      WordsSkipSpace(' ', w1);
      assert [' '] + w1 == " " + w1;
    }
    assert w0 + " " + w1 == w0 + (" " + w1);
    WordsCons(w0, " " + w1);
  }
}
