/**
 * The string helpers of the editor: trimming the title box, the line-number
 * gutter beside the content editor, and the character count shown on each
 * note card.
 */
module Text {

  // ---------------------------------------------------------------------------
  // String.prototype.trim
  // ---------------------------------------------------------------------------

  /** The code points JavaScript counts as WhiteSpace or LineTerminator, which trim removes. */
  predicate IsJsWhiteSpace(c: char) {
    || c == '\t' || c == '\n' || c == '\U{B}' || c == '\U{C}' || c == '\r' || c == ' '
    || c == '\U{A0}' || c == '\U{1680}' || ('\U{2000}' <= c <= '\U{200A}')
    || c == '\U{2028}' || c == '\U{2029}' || c == '\U{202F}' || c == '\U{205F}'
    || c == '\U{3000}' || c == '\U{FEFF}'
  }

  predicate AllWhiteSpace(s: string) {
    forall k | 0 <= k < |s| :: IsJsWhiteSpace(s[k])
  }

  /** How many white-space characters `s` starts with. */
  function LeadingSpace(s: string): (i: nat)
    ensures i <= |s|
    ensures forall k | 0 <= k < i :: IsJsWhiteSpace(s[k])
    ensures i < |s| ==> !IsJsWhiteSpace(s[i])
  {
    if s != [] && IsJsWhiteSpace(s[0]) then 1 + LeadingSpace(s[1..]) else 0
  }

  /** Where the trailing white space of `s` begins, searching no further left than `lo`. */
  function TrailingSpace(s: string, lo: nat): (j: nat)
    requires lo <= |s|
    ensures lo <= j <= |s|
    ensures forall k | j <= k < |s| :: IsJsWhiteSpace(s[k])
    ensures lo < j ==> !IsJsWhiteSpace(s[j - 1])
    decreases |s|
  {
    if lo < |s| && IsJsWhiteSpace(s[|s| - 1]) then TrailingSpace(s[..|s| - 1], lo) else |s|
  }

  /**
   * String.prototype.trim: the slice of `s` between its leading and trailing
   * white space. It is empty exactly when `s` is nothing but white space.
   */
  function Trim(s: string): (r: string)
    ensures r == [] <==> AllWhiteSpace(s)
    ensures r != [] ==> !IsJsWhiteSpace(r[0]) && !IsJsWhiteSpace(r[|r| - 1])
    ensures var i := LeadingSpace(s);
      && i + |r| <= |s| && r == s[i..i + |r|]
      && (forall k | 0 <= k < i :: IsJsWhiteSpace(s[k]))
      && (forall k | i + |r| <= k < |s| :: IsJsWhiteSpace(s[k]))
  {
    var i := LeadingSpace(s);
    var j := TrailingSpace(s, i);
    assert i < |s| ==> i < j;
    s[i..j]
  }

  // ---------------------------------------------------------------------------
  // The line-number gutter: split on '\n', number the lines, join with '\n'
  // ---------------------------------------------------------------------------

  function Count(s: string, c: char): nat {
    if s == [] then 0 else (if s[0] == c then 1 else 0) + Count(s[1..], c)
  }

  /** String.prototype.split('\n'): the lines of `s`; there is one more than there are newlines. */
  function Split(s: string): (r: seq<string>)
    ensures |r| == Count(s, '\n') + 1
    ensures forall k | 0 <= k < |r| :: '\n' !in r[k]
  {
    if s == [] then [[]]
    else
      var rest := Split(s[1..]);
      if s[0] == '\n' then [[]] + rest
      else [[s[0]] + rest[0]] + rest[1..]
  }

  /** Array.prototype.join('\n'). */
  function Join(parts: seq<string>): (r: string)
    ensures |parts| > 0 ==> parts[0] <= r
    ensures |parts| > 1 ==> |parts[0]| < |r| && r[|parts[0]|] == '\n'
  {
    if |parts| == 0 then []
    else if |parts| == 1 then parts[0]
    else parts[0] + "\n" + Join(parts[1..])
  }

  /** Splitting and joining again gives the text back. */
  lemma {:induction false} JoinSplit(s: string)
    ensures Join(Split(s)) == s
  {
    if s != [] {
      JoinSplit(s[1..]);
      var rest := Split(s[1..]);
      if s[0] == '\n' {
        assert Split(s) == [[]] + rest;
        assert s == [] + "\n" + s[1..];
      } else if |rest| == 1 {
        assert Split(s) == [[s[0]] + rest[0]];
      } else {
        assert Split(s) == [[s[0]] + rest[0]] + rest[1..];
        assert Join(rest) == rest[0] + "\n" + Join(rest[1..]);
        assert s == [s[0]] + s[1..];
      }
    }
  }

  /** A line with no newline in it followed by a newline splits off as the first line. */
  lemma {:induction false} SplitLineBreak(line: string, tail: string)
    requires '\n' !in line
    ensures Split(line + "\n" + tail) == [line] + Split(tail)
  {
    if line != [] {
      SplitLineBreak(line[1..], tail);
      var s := line + "\n" + tail;
      assert s[0] == line[0] && s[1..] == line[1..] + "\n" + tail;
      assert [line[0]] + line[1..] == line;
    } else {
      assert line + "\n" + tail == "\n" + tail;
    }
  }

  /** Text with no newline is a single line. */
  lemma {:induction false} SplitSingleLine(line: string)
    requires '\n' !in line
    ensures Split(line) == [line]
  {
    if line != [] {
      SplitSingleLine(line[1..]);
      assert [line[0]] + line[1..] == line;
    }
  }

  /** Joining lines that hold no newline and splitting again gives the lines back. */
  lemma {:induction false} SplitJoin(parts: seq<string>)
    requires |parts| > 0
    requires forall k | 0 <= k < |parts| :: '\n' !in parts[k]
    ensures Split(Join(parts)) == parts
  {
    if |parts| == 1 {
      SplitSingleLine(parts[0]);
    } else {
      SplitJoin(parts[1..]);
      SplitLineBreak(parts[0], Join(parts[1..]));
    }
  }

  /** The digit `d` as a character. */
  function DigitChar(d: nat): (c: char)
    requires d < 10
    ensures '0' <= c <= '9'
  {
    (48 + d) as char
  }

  /** Number.prototype.toString for a natural number: its decimal digits, most significant first. */
  function Decimal(n: nat): (r: string)
    ensures r != []
    ensures forall k | 0 <= k < |r| :: '0' <= r[k] <= '9'
    ensures r[0] == '0' ==> n == 0
  {
    if n < 10 then [DigitChar(n)] else Decimal(n / 10) + [DigitChar(n % 10)]
  }

  /** The number a string of decimal digits denotes. */
  function DecimalValue(s: string): nat
    requires forall k | 0 <= k < |s| :: '0' <= s[k] <= '9'
  {
    if s == [] then 0 else 10 * DecimalValue(s[..|s| - 1]) + (s[|s| - 1] as int - 48)
  }

  /** Reading the rendered digits back gives the number. */
  lemma {:induction false} DecimalRoundTrip(n: nat)
    ensures DecimalValue(Decimal(n)) == n
  {
    if n >= 10 {
      DecimalRoundTrip(n / 10);
      var r := Decimal(n);
      assert r[..|r| - 1] == Decimal(n / 10);
    }
  }

  /** The labels "1", "2", ..., the decimal of n. */
  function Labels(n: nat): (r: seq<string>)
    ensures |r| == n
    ensures forall k | 0 <= k < n :: r[k] == Decimal(k + 1)
  {
    if n == 0 then [] else Labels(n - 1) + [Decimal(n)]
  }

  /** The k-th label is the decimal of k + 1, so it has no newline in it. */
  lemma {:induction false} LabelAt(n: nat, k: nat)
    requires k < n
    ensures Labels(n)[k] == Decimal(k + 1)
    ensures '\n' !in Labels(n)[k]
  {
    if k < n - 1 {
      LabelAt(n - 1, k);
    }
    var d := Decimal(k + 1);
    assert forall j | 0 <= j < |d| :: d[j] != '\n';
  }

  /** No label holds a newline, so the labels can be joined and split back. */
  lemma LabelsHaveNoNewline(labels: seq<string>)
    requires labels == Labels(|labels|)
    ensures forall k | 0 <= k < |labels| :: '\n' !in labels[k]
  {
    forall k | 0 <= k < |labels| ensures '\n' !in labels[k] {
      LabelAt(|labels|, k);
    }
  }

  /** The gutter text: one line number per line of `text`, joined by newlines. */
  function LineNumbers(text: string): (r: string)
    ensures Split(r) == Labels(Count(text, '\n') + 1)
  {
    var labels := Labels(|Split(text)|);
    LabelsHaveNoNewline(labels);
    SplitJoin(labels);
    Join(labels)
  }

  /**
   * The gutter has exactly one line per line of the text (newlines + 1) and
   * its k-th line reads k + 1 in decimal.
   */
  lemma LineNumbersLines(text: string)
    ensures |Split(LineNumbers(text))| == Count(text, '\n') + 1
    ensures forall k | 0 <= k < Count(text, '\n') + 1 ::
      Split(LineNumbers(text))[k] == Decimal(k + 1)
  {
    var labels := Labels(Count(text, '\n') + 1);
    forall k | 0 <= k < |labels| ensures labels[k] == Decimal(k + 1) {
      LabelAt(|labels|, k);
    }
  }

  // ---------------------------------------------------------------------------
  // The card's character count: remove every match of /<[^>]*>/g, take the length
  // ---------------------------------------------------------------------------

  /** The index of the first `c` in `s`, or -1 (String.prototype.indexOf). */
  function IndexOf(s: string, c: char): (r: int)
    ensures -1 <= r < |s|
    ensures r >= 0 ==> s[r] == c && c !in s[..r]
    ensures r == -1 <==> c !in s
  {
    if s == [] then -1
    else if s[0] == c then 0
    else
      var j := IndexOf(s[1..], c);
      assert s[1..][..j + 1] == s[1..j + 2] by { assert j + 2 <= |s| || j == -1; }
      if j == -1 then -1 else j + 1
  }

  /** No '<' is followed, anywhere later, by a '>': the pattern <[^>]*> has no match. */
  predicate HasNoTag(s: string) {
    forall i, j | 0 <= i < j < |s| :: !(s[i] == '<' && s[j] == '>')
  }

  /**
   * String.prototype.replace(/<[^>]*>/g, ''). Scanning left to right, a '<'
   * with a '>' somewhere after it starts a match that runs to the first such
   * '>' (the class [^>] also admits '<'); a '<' with no '>' after it is kept.
   * The result keeps only characters of the input and has no tag left.
   */
  function StripTags(s: string): (r: string)
    ensures |r| <= |s|
    ensures forall c | c in r :: c in s
    ensures HasNoTag(r)
    decreases |s|
  {
    if s == [] then []
    else if s[0] == '<' && '>' in s then
      var j := IndexOf(s, '>');
      var r := StripTags(s[j + 1..]);
      assert forall c | c in s[j + 1..] :: c in s;
      r
    else
      var rest := StripTags(s[1..]);
      assert forall c | c in s[1..] :: c in s;
      assert s[0] == '<' ==> '>' !in rest;
      [s[0]] + rest
  }

  /** Text that holds no tag is left as it is. */
  lemma {:induction false} StripTagsNoTag(s: string)
    requires HasNoTag(s)
    ensures StripTags(s) == s
  {
    if s != [] {
      assert HasNoTag(s[1..]) by {
        forall i, j | 0 <= i < j < |s| - 1 ensures !(s[1..][i] == '<' && s[1..][j] == '>') {
          assert s[1..][i] == s[i + 1] && s[1..][j] == s[j + 1];
        }
      }
      StripTagsNoTag(s[1..]);
    }
  }

  /**
   * The first tag is removed and the text before it kept: `a` holds no '<',
   * so the first match starts at the '<' after it and, `t` holding no '>',
   * ends at the '>' after `t`; the scan then resumes on `b`.
   */
  lemma {:induction false} StripTagsTag(a: string, t: string, b: string)
    requires '<' !in a && '>' !in t
    ensures StripTags(a + "<" + t + ">" + b) == a + StripTags(b)
  {
    var s := a + "<" + t + ">" + b;
    if a == [] {
      assert s == "<" + t + ">" + b;
      var j := IndexOf(s, '>');
      assert s[|t| + 1] == '>';
      assert s[..|t| + 1] == "<" + t;
      assert j == |t| + 1;
      assert s[j + 1..] == b;
    } else {
      StripTagsTag(a[1..], t, b);
      assert s[0] == a[0] && s[0] != '<';
      assert s[1..] == a[1..] + "<" + t + ">" + b;
      assert [a[0]] + a[1..] == a;
    }
  }

  /**
   * Any text with a tag splits as `StripTagsTag` needs: up to the first '<',
   * that '<', up to the first '>' after it, that '>', and the rest.
   */
  lemma FirstTag(s: string) returns (p: nat, q: nat)
    requires !HasNoTag(s)
    ensures p < q < |s|
    ensures '<' !in s[..p] && '>' !in s[p + 1..q]
    ensures s == s[..p] + "<" + s[p + 1..q] + ">" + s[q + 1..]
  {
    var i, j :| 0 <= i < j < |s| && s[i] == '<' && s[j] == '>';
    p := FirstOf(s, '<', i);
    var d := FirstOf(s[p + 1..], '>', j - p - 1);
    q := p + 1 + d;
    assert s[p + 1..q] == s[p + 1..][..d];
    CutAround(s, p, q);
  }

  /** The first `c` of `s` comes no later than one at `i`. */
  lemma FirstOf(s: string, c: char, i: nat) returns (p: nat)
    requires i < |s| && s[i] == c
    ensures p <= i && s[p] == c && c !in s[..p]
  {
    assert c in s;
    p := IndexOf(s, c);
  }

  /** `s` is what comes before `p`, `s[p]`, what lies between, `s[q]`, and what follows `q`. */
  lemma CutAround(s: string, p: nat, q: nat)
    requires p < q < |s|
    ensures s == s[..p] + [s[p]] + s[p + 1..q] + [s[q]] + s[q + 1..]
  {
    assert s[..q] == s[..p] + [s[p]] + s[p + 1..q];
    assert s == s[..q] + [s[q]] + s[q + 1..];
  }

  /** Stripping twice is the same as stripping once. */
  lemma StripTagsIdempotent(s: string)
    ensures StripTags(StripTags(s)) == StripTags(s)
  {
  }

  /** The number shown as "N characters" on a note card. */
  function CharCount(content: string): (n: nat)
    ensures n <= |content|
    ensures HasNoTag(content) ==> n == |content|
  {
    var r := StripTags(content);
    assert HasNoTag(content) ==> r == content by {
      if HasNoTag(content) {
        StripTagsNoTag(content);
      }
    }
    |r|
  }

  /** A tag costs nothing in the count: only the text before it and the count of the rest remain. */
  lemma CharCountTag(a: string, t: string, b: string)
    requires '<' !in a && '>' !in t
    ensures CharCount(a + "<" + t + ">" + b) == |a| + CharCount(b)
  {
    StripTagsTag(a, t, b);
  }
}
