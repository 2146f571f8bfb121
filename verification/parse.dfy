/** The argument parse shared by `/add` and `/remove`: drop the command
    prefix, split the rest on whitespace as Python's `str.split()` does, and
    strip one leading `@` from each token. */
module Parse {

  /** The characters Python's `str.split()` (no separator) splits on. */
  predicate IsSpace(c: char) {
    || c == ' '
    || '\t' <= c <= '\r'
    || '\U{1C}' <= c <= '\U{1F}'
    || c == '\U{85}' || c == '\U{A0}' || c == '\U{1680}'
    || '\U{2000}' <= c <= '\U{200A}'
    || c == '\U{2028}' || c == '\U{2029}' || c == '\U{202F}'
    || c == '\U{205F}' || c == '\U{3000}'
  }

  predicate Blank(s: string) {
    forall i :: 0 <= i < |s| ==> IsSpace(s[i])
  }

  /** A token: non-empty and free of whitespace. */
  predicate IsWord(w: string) {
    |w| > 0 && forall i :: 0 <= i < |w| ==> !IsSpace(w[i])
  }

  /** Length of the leading run of non-space characters. */
  function WordLen(s: string): (n: nat)
    ensures n <= |s|
    ensures forall i :: 0 <= i < n ==> !IsSpace(s[i])
    ensures n == |s| || IsSpace(s[n])
  {
    if |s| == 0 || IsSpace(s[0]) then 0 else 1 + WordLen(s[1..])
  }

  /** Python's `s.split()`: the maximal runs of non-space characters. */
  function Words(s: string): (r: seq<string>)
    ensures forall i :: 0 <= i < |r| ==> IsWord(r[i])
    decreases |s|
  {
    if |s| == 0 then []
    else if IsSpace(s[0]) then Words(s[1..])
    else
      var n := WordLen(s);
      [s[..n]] + Words(s[n..])
  }

  /** Tokens joined back with single spaces. */
  function Join(ws: seq<string>): string {
    if |ws| == 0 then ""
    else if |ws| == 1 then ws[0]
    else ws[0] + " " + Join(ws[1..])
  }

  /** No tokens exactly when the text is blank. */
  lemma {:induction false} WordsEmptyIffBlank(s: string)
    ensures Words(s) == [] <==> Blank(s)
    decreases |s|
  {
    if |s| > 0 && IsSpace(s[0]) {
      WordsEmptyIffBlank(s[1..]);
      if Blank(s[1..]) {
        forall i | 0 <= i < |s|
          ensures IsSpace(s[i])
        {
          if i > 0 {
            assert s[i] == s[1..][i - 1];
          }
        }
      }
    }
  }

  lemma {:induction false} WordLenOfWord(w: string, t: string)
    requires IsWord(w)
    requires |t| == 0 || IsSpace(t[0])
    ensures WordLen(w + t) == |w|
    decreases |w|
  {
    if |w| > 1 {
      assert (w + t)[1..] == w[1..] + t;
      WordLenOfWord(w[1..], t);
    } else {
      assert (w + t)[1..] == t;
    }
  }

  /** Splitting a space-joined list of tokens gives the tokens back. */
  lemma {:induction false} WordsJoin(ws: seq<string>)
    requires forall i :: 0 <= i < |ws| ==> IsWord(ws[i])
    ensures Words(Join(ws)) == ws
  {
    if |ws| == 0 {
    } else if |ws| == 1 {
      var w := ws[0];
      WordLenOfWord(w, "");
      assert w + "" == w;
      assert w[|w|..] == "";
      assert Words(w) == [w[..|w|]] + Words("");
    } else {
      var w := ws[0];
      var rest := Join(ws[1..]);
      var s := w + " " + rest;
      WordLenOfWord(w, " " + rest);
      assert s == w + (" " + rest);
      assert s[..|w|] == w;
      assert s[|w|..] == " " + rest;
      assert (" " + rest)[1..] == rest;
      WordsJoin(ws[1..]);
      assert Words(s) == [w] + Words(" " + rest);
      assert Words(" " + rest) == Words(rest);
      assert ws == [w] + ws[1..];
    }
  }

  /** One leading `@` is dropped; a bare "@" becomes the empty handle. */
  function StripAt(w: string): (r: string)
    ensures if |w| > 0 && w[0] == '@' then w == "@" + r else r == w
  {
    if |w| > 0 && w[0] == '@' then w[1..] else w
  }

  /** Python's `text[k:]`: the suffix after `k` characters, empty when `k` is past the end. */
  function Tail(text: string, k: nat): (r: string)
    ensures k <= |text| ==> text == text[..k] + r
    ensures k > |text| ==> r == ""
  {
    if k <= |text| then text[k..] else ""
  }

  /** The handles named after a command of `prefixLen` characters
      (handler.py lines 139-140 and 172-173). */
  function CommandArgs(text: string, prefixLen: nat): (r: seq<string>)
    ensures |r| == |Words(Tail(text, prefixLen))|
    ensures forall i :: 0 <= i < |r| ==> r[i] == StripAt(Words(Tail(text, prefixLen))[i])
  {
    var ws := Words(Tail(text, prefixLen));
    seq(|ws|, i requires 0 <= i < |ws| => StripAt(ws[i]))
  }

  /** The argument list is empty exactly when nothing but whitespace follows the command. */
  lemma CommandArgsEmptyIffBlank(text: string, prefixLen: nat)
    ensures CommandArgs(text, prefixLen) == [] <==> Blank(Tail(text, prefixLen))
  {
    WordsEmptyIffBlank(Tail(text, prefixLen));
  }

  /** A leading space is skipped by the split. */
  lemma WordsSkipSpace(x: string)
    ensures Words(" " + x) == Words(x)
  {
    assert (" " + x)[1..] == x;
  }

  /** A command followed by space-separated tokens parses back to those
      tokens, each with one leading `@` removed. */
  lemma CommandArgsOfJoin(cmd: string, ws: seq<string>)
    requires forall i :: 0 <= i < |ws| ==> IsWord(ws[i])
    ensures |CommandArgs(cmd + " " + Join(ws), |cmd|)| == |ws|
    ensures forall i :: 0 <= i < |ws| ==> CommandArgs(cmd + " " + Join(ws), |cmd|)[i] == StripAt(ws[i])
  {
    var text := cmd + " " + Join(ws);
    assert Tail(text, |cmd|) == " " + Join(ws);
    WordsSkipSpace(Join(ws));
    WordsJoin(ws);
  }

  /** Writing each handle as an `@` mention after the command, as a user
      types `/add @alice @bob`, gives back exactly those handles. */
  lemma MentionsRoundTrip(cmd: string, handles: seq<string>)
    requires forall i :: 0 <= i < |handles| ==> IsWord(handles[i])
    ensures CommandArgs(cmd + " " + Join(seq(|handles|, i requires 0 <= i < |handles| => "@" + handles[i])), |cmd|)
            == handles
  {
    var ws := seq(|handles|, i requires 0 <= i < |handles| => "@" + handles[i]);
    forall i | 0 <= i < |ws|
      ensures IsWord(ws[i]) && StripAt(ws[i]) == handles[i]
    {
      assert ws[i] == "@" + handles[i];
      assert ws[i][1..] == handles[i];
      forall j | 0 <= j < |ws[i]|
        ensures !IsSpace(ws[i][j])
      {
        if j > 0 {
          assert ws[i][j] == handles[i][j - 1];
        }
      }
    }
    CommandArgsOfJoin(cmd, ws);
  }
}
