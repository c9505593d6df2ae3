/** String helpers with the semantics of the Python built-ins the scripts use:
  * `str.split(sep)`, `sep.join(parts)`, `str.split()`, `str.startswith`,
  * `str.endswith`, `str.replace` and `file.readlines()`. */
module Text {

  predicate StartsWith(s: string, p: string) {
    |p| <= |s| && s[..|p|] == p
  }

  predicate EndsWith(s: string, p: string) {
    |p| <= |s| && s[|s| - |p|..] == p
  }

  /** Python's `str.isspace` for one character. */
  predicate IsSpace(c: char) {
    c == ' ' || ('\t' <= c <= '\r') || ('\U{1c}' <= c <= '\U{1f}')
    || c == '\U{85}' || c == '\U{a0}' || c == '\U{1680}'
    || ('\U{2000}' <= c <= '\U{200a}') || c == '\U{2028}' || c == '\U{2029}'
    || c == '\U{202f}' || c == '\U{205f}' || c == '\U{3000}'
  }

  predicate NoSpace(s: string) {
    forall k :: 0 <= k < |s| ==> !IsSpace(s[k])
  }

  /** `c * n` for a one-character string `c`. */
  function Repeat(c: char, n: nat): (r: string)
    ensures |r| == n && forall k :: 0 <= k < n ==> r[k] == c
  {
    if n == 0 then "" else [c] + Repeat(c, n - 1)
  }

  /** `s.split(sep)`: never empty, and no piece holds the separator. */
  function SplitOn(s: string, sep: char): (parts: seq<string>)
    ensures |parts| >= 1
    ensures forall i :: 0 <= i < |parts| ==> sep !in parts[i]
    decreases |s|
  {
    if |s| == 0 then [""]
    else if s[0] == sep then [""] + SplitOn(s[1..], sep)
    else
      var rest := SplitOn(s[1..], sep);
      [[s[0]] + rest[0]] + rest[1..]
  }

  /** `sep.join(parts)`. */
  function JoinWith(parts: seq<string>, sep: char): string
  {
    if |parts| == 0 then ""
    else if |parts| == 1 then parts[0]
    else parts[0] + [sep] + JoinWith(parts[1..], sep)
  }

  lemma {:induction false} SplitPrefix(p: string, t: string, sep: char)
    requires sep !in p
    ensures SplitOn(p + t, sep) == [p + SplitOn(t, sep)[0]] + SplitOn(t, sep)[1..]
    decreases |p|
  {
    if |p| > 0 {
      assert (p + t)[1..] == p[1..] + t;
      SplitPrefix(p[1..], t, sep);
      assert [p[0]] + (p[1..] + SplitOn(t, sep)[0]) == p + SplitOn(t, sep)[0];
    } else {
      assert p + t == t;
      assert p + SplitOn(t, sep)[0] == SplitOn(t, sep)[0];
      assert [SplitOn(t, sep)[0]] + SplitOn(t, sep)[1..] == SplitOn(t, sep);
    }
  }

  /** A separator-free line followed by the separator splits off as one piece. */
  lemma SplitAfterLine(a: string, t: string, sep: char)
    requires sep !in a
    ensures SplitOn(a + [sep] + t, sep) == [a] + SplitOn(t, sep)
  {
    var u := [sep] + t;
    assert u[1..] == t;
    assert SplitOn(u, sep) == [""] + SplitOn(t, sep);
    SplitPrefix(a, u, sep);
    assert a + [sep] + t == a + u;
    assert a + "" == a;
  }

  /** The same, with the separator grouped with what follows it. */
  lemma SplitBefore(a: string, t: string, sep: char)
    requires sep !in a
    ensures SplitOn(a + ([sep] + t), sep) == [a] + SplitOn(t, sep)
  {
    SplitAfterLine(a, t, sep);
    assert a + ([sep] + t) == a + [sep] + t;
  }

  /** Four separator-free lines, each preceded by the separator and the
    * last one followed by it, split into a blank piece, the four lines and
    * a blank piece. */
  lemma SplitFramed(a: string, b: string, c: string, d: string, sep: char)
    requires sep !in a && sep !in b && sep !in c && sep !in d
    ensures SplitOn([sep] + (a + ([sep] + (b + ([sep] + (c + ([sep] + (d + [sep]))))))), sep)
         == ["", a, b, c, d, ""]
  {
    var t4 := d + [sep];
    assert t4 == d + ([sep] + "");
    SplitBefore(d, "", sep);
    SplitBefore(c, t4, sep);
    SplitBefore(b, c + ([sep] + t4), sep);
    SplitBefore(a, b + ([sep] + (c + ([sep] + t4))), sep);
    SplitBefore("", a + ([sep] + (b + ([sep] + (c + ([sep] + t4))))), sep);
    assert "" + ([sep] + (a + ([sep] + (b + ([sep] + (c + ([sep] + t4)))))))
        == [sep] + (a + ([sep] + (b + ([sep] + (c + ([sep] + t4))))));
  }

  /** Splitting a join on the same separator gives back the pieces, as long as
    * no piece contains the separator. */
  lemma {:induction false} SplitJoin(parts: seq<string>, sep: char)
    requires |parts| >= 1
    requires forall i :: 0 <= i < |parts| ==> sep !in parts[i]
    ensures SplitOn(JoinWith(parts, sep), sep) == parts
  {
    if |parts| == 1 {
      SplitPrefix(parts[0], "", sep);
      assert parts[0] + "" == parts[0];
    } else {
      var rest := parts[1..];
      SplitJoin(rest, sep);
      var t := [sep] + JoinWith(rest, sep);
      assert t[1..] == JoinWith(rest, sep);
      assert SplitOn(t, sep) == [""] + rest;
      SplitPrefix(parts[0], t, sep);
      assert parts[0] + [sep] + JoinWith(rest, sep) == parts[0] + t;
      assert parts[0] + "" == parts[0];
      assert [parts[0]] + rest == parts;
    }
  }

  /** A character that is in no piece and is not the separator is not in the join. */
  lemma {:induction false} JoinAvoids(parts: seq<string>, sep: char, c: char)
    requires c != sep
    requires forall i :: 0 <= i < |parts| ==> c !in parts[i]
    ensures c !in JoinWith(parts, sep)
  {
    if |parts| > 1 {
      JoinAvoids(parts[1..], sep, c);
    }
  }

  function WordsAcc(s: string, cur: string): seq<string>
    decreases |s|
  {
    if |s| == 0 then (if cur == "" then [] else [cur])
    else if IsSpace(s[0]) then (if cur == "" then [] else [cur]) + WordsAcc(s[1..], "")
    else WordsAcc(s[1..], cur + [s[0]])
  }

  /** `s.split()` with no argument: the maximal runs of non-space characters. */
  function Words(s: string): (ws: seq<string>)
  {
    WordsAcc(s, "")
  }

  lemma {:induction false} WordsAccShape(s: string, cur: string)
    requires NoSpace(cur)
    ensures forall i :: 0 <= i < |WordsAcc(s, cur)| ==> |WordsAcc(s, cur)[i]| > 0 && NoSpace(WordsAcc(s, cur)[i])
    decreases |s|
  {
    if |s| > 0 {
      if IsSpace(s[0]) {
        WordsAccShape(s[1..], "");
      } else {
        WordsAccShape(s[1..], cur + [s[0]]);
      }
    }
  }

  /** Every word is non-empty and holds no white space. */
  lemma WordsShape(s: string)
    ensures forall i :: 0 <= i < |Words(s)| ==> |Words(s)[i]| > 0 && NoSpace(Words(s)[i])
  {
    WordsAccShape(s, "");
  }

  lemma {:induction false} WordsAccPrefix(p: string, t: string, cur: string)
    requires NoSpace(p)
    ensures WordsAcc(p + t, cur) == WordsAcc(t, cur + p)
    decreases |p|
  {
    if |p| == 0 {
      assert p + t == t;
      assert cur + p == cur;
    } else {
      assert (p + t)[0] == p[0];
      assert (p + t)[1..] == p[1..] + t;
      WordsAccPrefix(p[1..], t, cur + [p[0]]);
      assert cur + [p[0]] + p[1..] == cur + p;
    }
  }

  /** Splitting on white space undoes a join with single spaces. */
  lemma {:induction false} WordsJoin(ws: seq<string>)
    requires forall i :: 0 <= i < |ws| ==> |ws[i]| > 0 && NoSpace(ws[i])
    ensures Words(JoinWith(ws, ' ')) == ws
  {
    if |ws| == 1 {
      WordsAccPrefix(ws[0], "", "");
      assert ws[0] + "" == ws[0];
      assert "" + ws[0] == ws[0];
    } else if |ws| > 1 {
      WordsJoin(ws[1..]);
      var t := [' '] + JoinWith(ws[1..], ' ');
      WordsAccPrefix(ws[0], t, "");
      assert ws[0] + [' '] + JoinWith(ws[1..], ' ') == ws[0] + t;
      assert "" + ws[0] == ws[0];
      assert t[1..] == JoinWith(ws[1..], ' ');
      assert [ws[0]] + ws[1..] == ws;
    }
  }

  /** Length of the first line of `s`, including its newline if it has one. */
  function FirstLineLength(s: string): (n: nat)
    requires |s| > 0
    ensures 0 < n <= |s|
    ensures '\n' !in s[..n - 1]
    ensures n < |s| ==> s[n - 1] == '\n'
  {
    if s[0] == '\n' || |s| == 1 then 1
    else
      var m := FirstLineLength(s[1..]);
      assert s[..m] == [s[0]] + s[1..][..m - 1];
      m + 1
  }

  function Concat(lines: seq<string>): string
  {
    if |lines| == 0 then "" else lines[0] + Concat(lines[1..])
  }

  /** `f.readlines()` on the text `s`: the lines with their newlines kept. */
  function ReadLines(s: string): (lines: seq<string>)
    ensures Concat(lines) == s
    ensures forall i :: 0 <= i < |lines| ==> |lines[i]| > 0
    ensures forall i :: 0 <= i < |lines| ==> '\n' !in lines[i][..|lines[i]| - 1]
    ensures forall i :: 0 <= i < |lines| - 1 ==> lines[i][|lines[i]| - 1] == '\n'
    decreases |s|
  {
    if |s| == 0 then []
    else
      var n := FirstLineLength(s);
      var rest := ReadLines(s[n..]);
      assert s[..n] + s[n..] == s;
      [s[..n]] + rest
  }

  /** `s.replace(pat, rep)`: replaces every non-overlapping occurrence, left to right. */
  function ReplaceAll(s: string, pat: string, rep: string): string
    requires |pat| > 0
    decreases |s|
  {
    if StartsWith(s, pat) then rep + ReplaceAll(s[|pat|..], pat, rep)
    else if |s| == 0 then ""
    else [s[0]] + ReplaceAll(s[1..], pat, rep)
  }

  /** True when `pat` starts at no position before `limit`. */
  predicate NoMatchBefore(s: string, pat: string, limit: nat)
  {
    forall i :: 0 <= i < limit && i <= |s| ==> !StartsWith(s[i..], pat)
  }

  /** When the only occurrence of `pat` in `stem + pat` is the final one,
    * replacing gives `stem + rep`. */
  lemma {:induction false} ReplaceSuffix(stem: string, pat: string, rep: string)
    requires |pat| > 0
    requires NoMatchBefore(stem + pat, pat, |stem|)
    ensures ReplaceAll(stem + pat, pat, rep) == stem + rep
    decreases |stem|
  {
    var s := stem + pat;
    if |stem| == 0 {
      assert s == pat && s[..|pat|] == pat;
      assert s[|pat|..] == "";
      assert rep + "" == rep;
    } else {
      assert s[0..] == s;
      assert !StartsWith(s, pat);
      assert s[1..] == stem[1..] + pat;
      forall i | 0 <= i < |stem[1..]| && i <= |s[1..]|
        ensures !StartsWith(s[1..][i..], pat)
      {
        assert s[1..][i..] == s[i + 1..];
      }
      ReplaceSuffix(stem[1..], pat, rep);
      assert [stem[0]] + (stem[1..] + rep) == stem + rep;
    }
  }

  /** A string with no occurrence of `pat` is left unchanged. */
  lemma {:induction false} ReplaceAbsent(s: string, pat: string, rep: string)
    requires |pat| > 0
    requires NoMatchBefore(s, pat, |s| + 1)
    ensures ReplaceAll(s, pat, rep) == s
    decreases |s|
  {
    assert s[0..] == s;
    if |s| > 0 {
      forall i | 0 <= i < |s[1..]| + 1 && i <= |s[1..]|
        ensures !StartsWith(s[1..][i..], pat)
      {
        assert s[1..][i..] == s[i + 1..];
      }
      ReplaceAbsent(s[1..], pat, rep);
      assert [s[0]] + s[1..] == s;
    }
  }
}
