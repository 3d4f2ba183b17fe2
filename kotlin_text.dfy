/** The few Kotlin standard-library string operations the filters rely on:
    prefix and suffix tests, substring search, `lines()`, `joinToString`,
    `trimMargin()` and `lowercase()`. */
module KotlinText {

  predicate StartsWith(s: string, prefix: string)
  {
    |prefix| <= |s| && s[..|prefix|] == prefix
  }

  predicate EndsWith(s: string, suffix: string)
  {
    |suffix| <= |s| && s[|s| - |suffix|..] == suffix
  }

  /** `pat` occurs in `s` starting at index `k`. */
  predicate OccursAt(s: string, pat: string, k: int)
  {
    0 <= k && k + |pat| <= |s| && s[k..k + |pat|] == pat
  }

  ghost predicate Contains(s: string, pat: string)
  {
    exists k :: OccursAt(s, pat, k)
  }

  // ---------------------------------------------------------------------
  // Characters

  /** Kotlin's `Char.isWhitespace()`: Java whitespace or a Unicode space
      separator (categories Zs, Zl, Zp). */
  predicate IsWhitespace(c: char)
  {
    var n := c as int;
    || 9 <= n <= 13 || 28 <= n <= 32
    || n == 0xA0 || n == 0x1680 || 0x2000 <= n <= 0x200A
    || n == 0x2028 || n == 0x2029 || n == 0x202F || n == 0x205F || n == 0x3000
  }

  predicate IsBlank(s: string)
  {
    forall i :: 0 <= i < |s| ==> IsWhitespace(s[i])
  }

  /** Index of the first non-whitespace character, `|s|` when there is none. */
  function FirstNonWhitespace(s: string): (k: nat)
    ensures k <= |s|
    ensures forall i :: 0 <= i < k ==> IsWhitespace(s[i])
    ensures k < |s| ==> !IsWhitespace(s[k])
  {
    if s == [] || !IsWhitespace(s[0]) then 0 else 1 + FirstNonWhitespace(s[1..])
  }

  predicate IsLineBreak(c: char)
  {
    c == '\n' || c == '\r'
  }

  predicate NoBreak(s: string)
  {
    forall i :: 0 <= i < |s| ==> !IsLineBreak(s[i])
  }

  predicate AllNoBreak(ls: seq<string>)
  {
    forall i :: 0 <= i < |ls| ==> NoBreak(ls[i])
  }

  // ---------------------------------------------------------------------
  // lines() and joinToString

  /** Kotlin's `lines()`: split on "\r\n", "\n" and "\r" (tried in that
      order at each position). There is always at least one line, and no
      line holds a line-break character. */
  function Lines(s: string): (ls: seq<string>)
    ensures |ls| >= 1
    ensures AllNoBreak(ls)
    decreases |s|
  {
    if s == [] then [""]
    else if s[0] == '\n' then [""] + Lines(s[1..])
    else if s[0] == '\r' then
      if |s| >= 2 && s[1] == '\n' then [""] + Lines(s[2..]) else [""] + Lines(s[1..])
    else
      var rest := Lines(s[1..]);
      [[s[0]] + rest[0]] + rest[1..]
  }

  /** Kotlin's `joinToString(sep)`. */
  function Join(ls: seq<string>, sep: string): string
  {
    if ls == [] then ""
    else if |ls| == 1 then ls[0]
    else ls[0] + sep + Join(ls[1..], sep)
  }

  lemma JoinCons(l: string, ls: seq<string>, sep: string)
    requires |ls| >= 1
    ensures Join([l] + ls, sep) == l + sep + Join(ls, sep)
  {
    assert ([l] + ls)[1..] == ls;
  }

  predicate IsLineSeparator(sep: string)
  {
    sep == "\n" || sep == "\r" || sep == "\r\n"
  }

  /** Text without breaks in front of `s` only lengthens the first line. */
  lemma {:induction false} LinesOfPrefix(l: string, s: string)
    requires NoBreak(l)
    ensures Lines(l + s) == [l + Lines(s)[0]] + Lines(s)[1..]
    decreases |l|
  {
    if l == [] {
      assert l + s == s;
      assert l + Lines(s)[0] == Lines(s)[0];
      assert [Lines(s)[0]] + Lines(s)[1..] == Lines(s);
    } else {
      assert (l + s)[0] == l[0];
      assert (l + s)[1..] == l[1..] + s;
      LinesOfPrefix(l[1..], s);
      assert [l[0]] + (l[1..] + Lines(s)[0]) == l + Lines(s)[0];
    }
  }

  /** A text without line breaks is a single line. */
  lemma SingleLine(t: string)
    requires NoBreak(t)
    ensures Lines(t) == [t]
  {
    LinesOfPrefix(t, "");
    assert t + "" == t;
  }

  lemma {:induction false} JoinDoesNotStartWithLf(ls: seq<string>)
    requires |ls| >= 1 && AllNoBreak(ls)
    ensures Join(ls, "\r") == [] || Join(ls, "\r")[0] != '\n'
  {
    if |ls| > 1 && ls[0] == "" {
      assert Join(ls, "\r") == "" + "\r" + Join(ls[1..], "\r");
    } else if |ls| > 1 {
      assert Join(ls, "\r")[0] == ls[0][0];
    }
  }

  /** Splitting joined lines gives the lines back, for any of the three
      line separators, as long as no line holds a break itself. */
  lemma {:induction false} LinesOfJoin(ls: seq<string>, sep: string)
    requires |ls| >= 1 && AllNoBreak(ls) && IsLineSeparator(sep)
    ensures Lines(Join(ls, sep)) == ls
    decreases |ls|
  {
    if |ls| == 1 {
      SingleLine(ls[0]);
    } else {
      var rest := Join(ls[1..], sep);
      LinesOfJoin(ls[1..], sep);
      if sep == "\r" {
        JoinDoesNotStartWithLf(ls[1..]);
      }
      assert (sep + rest)[0] == sep[0];
      if sep == "\r\n" {
        assert (sep + rest)[1] == '\n';
        assert (sep + rest)[2..] == rest;
      } else {
        assert (sep + rest)[1..] == rest;
      }
      assert Lines(sep + rest) == [""] + ls[1..];
      assert Join(ls, sep) == ls[0] + (sep + rest);
      LinesOfPrefix(ls[0], sep + rest);
      assert ls[0] + "" == ls[0];
      assert [ls[0]] + ls[1..] == ls;
    }
  }

  /** Every character of a join comes from a line or from the separator. */
  lemma {:induction false} JoinCharacters(ls: seq<string>, sep: string, k: int)
    requires 0 <= k < |Join(ls, sep)|
    ensures (exists i, j :: 0 <= i < |ls| && 0 <= j < |ls[i]| && ls[i][j] == Join(ls, sep)[k])
         || (exists j :: 0 <= j < |sep| && sep[j] == Join(ls, sep)[k])
    decreases |ls|
  {
    var J := Join(ls, sep);
    if |ls| == 1 {
      assert ls[0][k] == J[k];
    } else {
      var rest := Join(ls[1..], sep);
      assert J == ls[0] + sep + rest;
      if k < |ls[0]| {
        assert ls[0][k] == J[k];
      } else if k < |ls[0]| + |sep| {
        assert sep[k - |ls[0]|] == J[k];
      } else {
        var k' := k - |ls[0]| - |sep|;
        assert rest[k'] == J[k];
        JoinCharacters(ls[1..], sep, k');
        if exists i, j :: 0 <= i < |ls[1..]| && 0 <= j < |ls[1..][i]| && ls[1..][i][j] == rest[k'] {
          var i, j :| 0 <= i < |ls[1..]| && 0 <= j < |ls[1..][i]| && ls[1..][i][j] == rest[k'];
          assert ls[i + 1][j] == J[k];
        }
      }
    }
  }

  // ---------------------------------------------------------------------
  // trimMargin()

  /** The margin cut of `trimMargin()` on one line: when the first
      non-whitespace character is '|', everything up to and including it is
      dropped; otherwise the line is kept as it is. */
  function CutMargin(line: string): (r: string)
  {
    var k := FirstNonWhitespace(line);
    if k < |line| && line[k] == '|' then line[k + 1..] else line
  }

  /** The lines from index `i` on, with a blank first or last line dropped
      and the margin cut from every other line. */
  function TrimMarginLines(ls: seq<string>, i: nat): (r: seq<string>)
    requires i <= |ls|
    decreases |ls| - i
  {
    if i == |ls| then []
    else if (i == 0 || i == |ls| - 1) && IsBlank(ls[i]) then TrimMarginLines(ls, i + 1)
    else [CutMargin(ls[i])] + TrimMarginLines(ls, i + 1)
  }

  /** Kotlin's `trimMargin()` with the default margin prefix "|". */
  function TrimMargin(s: string): string
  {
    Join(TrimMarginLines(Lines(s), 0), "\n")
  }

  lemma CutMarginAfterIndent(indent: string, rest: string)
    requires IsBlank(indent)
    ensures CutMargin(indent + "|" + rest) == rest
  {
    var line := indent + "|" + rest;
    var k := FirstNonWhitespace(line);
    assert line[|indent|] == '|';
    assert !IsWhitespace('|');
    forall i | 0 <= i < |indent| ensures IsWhitespace(line[i]) {
      assert line[i] == indent[i];
    }
    assert k == |indent|;
    assert line[k + 1..] == rest;
  }

  /** The template lines `indent + "|" + line`. */
  function MarginLines(indent: string, body: seq<string>): (r: seq<string>)
    ensures |r| == |body|
    ensures forall i :: 0 <= i < |body| ==> r[i] == indent + "|" + body[i]
  {
    seq(|body|, i requires 0 <= i < |body| => indent + "|" + body[i])
  }

  /** The lines of a raw-string template: an empty opening line, one
      `indent + "|" + line` per body line, and, when `closing`, a last line
      holding only the indent (the one before the closing quotes). */
  function TemplateLines(indent: string, body: seq<string>, closing: bool): seq<string>
  {
    [""] + MarginLines(indent, body) + (if closing then [indent] else [])
  }

  /** `trimMargin()` of such a template: the blank opening and closing lines
      go, the margins are cut and the body lines are joined by "\n". */
  lemma TrimMarginOfTemplate(indent: string, body: seq<string>, closing: bool)
    requires IsBlank(indent) && NoBreak(indent) && |body| >= 1 && AllNoBreak(body)
    ensures TrimMargin(Join(TemplateLines(indent, body, closing), "\n")) == Join(body, "\n")
  {
    var ls := TemplateLines(indent, body, closing);
    forall i | 0 <= i < |ls| ensures NoBreak(ls[i]) {
      if 0 < i <= |body| {
        assert ls[i] == indent + "|" + body[i - 1];
        forall j | 0 <= j < |ls[i]| ensures !IsLineBreak(ls[i][j]) {
          if j < |indent| { assert ls[i][j] == indent[j]; }
          else if j > |indent| { assert ls[i][j] == body[i - 1][j - |indent| - 1]; }
        }
      } else if i > |body| {
        assert ls[i] == indent;
      }
    }
    LinesOfJoin(ls, "\n");
    assert IsBlank(ls[0]);
    TrimTemplateLines(indent, body, closing, 1);
    assert TrimMarginLines(ls, 0) == TrimMarginLines(ls, 1);
    assert body[0..] == body;
  }

  lemma {:induction false} TrimTemplateLines(indent: string, body: seq<string>, closing: bool, i: nat)
    requires IsBlank(indent) && |body| >= 1
    requires 1 <= i <= |body| + 1
    ensures TrimMarginLines(TemplateLines(indent, body, closing), i) == body[i - 1..]
    decreases |body| + 1 - i
  {
    var ls := TemplateLines(indent, body, closing);
    if i <= |body| {
      TrimTemplateLines(indent, body, closing, i + 1);
      assert ls[i] == indent + "|" + body[i - 1];
      assert ls[i][|indent|] == '|';
      assert !IsBlank(ls[i]);
      CutMarginAfterIndent(indent, body[i - 1]);
      assert body[i - 1..] == [body[i - 1]] + body[i..];
    } else if closing {
      assert i == |ls| - 1 && ls[i] == indent;
      assert TrimMarginLines(ls, i + 1) == [];
    }
  }

  // ---------------------------------------------------------------------
  // lowercase()

  /** Lower-casing of one character; only the ASCII letters A-Z change. */
  function LowerChar(c: char): (r: char)
    ensures !('A' <= r <= 'Z')
  {
    if 'A' <= c <= 'Z' then (c as int + 32) as char else c
  }

  /** Kotlin's `lowercase()`, restricted to the ASCII letters. */
  function Lowercase(s: string): (r: string)
    ensures |r| == |s|
    ensures forall i :: 0 <= i < |s| ==> r[i] == LowerChar(s[i])
  {
    seq(|s|, i requires 0 <= i < |s| => LowerChar(s[i]))
  }
}
