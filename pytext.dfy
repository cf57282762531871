/** The Python `str` operations the launcher's parsers are built from:
    `strip`, `strip(chars)`, `startswith`, `endswith`, `split(sep)`,
    `split(sep, 1)`, `join` and `replace`, written out on `seq<char>`. */
module PyText {

  /** The characters for which Python's `str.isspace()` holds; `strip()`
      with no argument removes exactly these. */
  predicate IsSpace(c: char) {
    || c == ' ' || '\t' <= c <= '\r' || '\U{1C}' <= c <= '\U{1F}' || c == '\U{85}' || c == '\U{A0}'
    || c == '\U{1680}' || '\U{2000}' <= c <= '\U{200A}' || c == '\U{2028}' || c == '\U{2029}'
    || c == '\U{202F}' || c == '\U{205F}' || c == '\U{3000}'
  }

  /** How many characters `s.lstrip(cs)` removes: the length of the longest
      prefix made of characters of `cs`. */
  function LeadingCount(s: string, cs: char -> bool): (n: nat)
    ensures n <= |s|
    ensures forall k :: 0 <= k < n ==> cs(s[k])
    ensures n == |s| || !cs(s[n])
  {
    if s != [] && cs(s[0]) then 1 + LeadingCount(s[1..], cs) else 0
  }

  /** How many characters `s.rstrip(cs)` keeps: the length of `s` without its
      longest suffix made of characters of `cs`. */
  function KeptCount(s: string, cs: char -> bool): (n: nat)
    ensures n <= |s|
    ensures forall k :: n <= k < |s| ==> cs(s[k])
    ensures n == 0 || !cs(s[n - 1])
  {
    if s != [] && cs(s[|s| - 1]) then KeptCount(s[..|s| - 1], cs) else |s|
  }

  /** `s.lstrip(cs)`. */
  function TrimStart(s: string, cs: char -> bool): string {
    s[LeadingCount(s, cs)..]
  }

  /** `s.rstrip(cs)`. */
  function TrimEnd(s: string, cs: char -> bool): string {
    s[..KeptCount(s, cs)]
  }

  /** `s.strip(cs)`. */
  function StripAny(s: string, cs: char -> bool): string {
    TrimEnd(TrimStart(s, cs), cs)
  }

  /** `s.strip()`. */
  function Strip(s: string): string {
    StripAny(s, IsSpace)
  }

  /** A string is left alone by `strip(cs)` exactly when it is empty or
      neither begins nor ends with a character of `cs`. */
  predicate Stripped(s: string, cs: char -> bool) {
    s == [] || (!cs(s[0]) && !cs(s[|s| - 1]))
  }

  /** What `strip(cs)` returns is a contiguous piece of its input, with only
      characters of `cs` cut away on either side, and it is itself stripped. */
  lemma StripAnyShape(s: string, cs: char -> bool)
    ensures var r := StripAny(s, cs);
      exists i, j :: 0 <= i <= j <= |s| && r == s[i..j]
        && (forall k :: 0 <= k < i ==> cs(s[k]))
        && (forall k :: j <= k < |s| ==> cs(s[k]))
    ensures Stripped(StripAny(s, cs), cs)
  {
    var i := LeadingCount(s, cs);
    var t := s[i..];
    var j := i + KeptCount(t, cs);
    assert StripAny(s, cs) == s[i..j];
    forall k | j <= k < |s| ensures cs(s[k]) {
      assert s[k] == t[k - i];
    }
    if i < j {
      assert s[i] == t[0] && s[j - 1] == t[j - 1 - i];
    }
  }

  /** `strip(cs)` changes nothing exactly on stripped strings. */
  lemma StripAnyFixed(s: string, cs: char -> bool)
    ensures StripAny(s, cs) == s <==> Stripped(s, cs)
  {
    StripAnyShape(s, cs);
    if Stripped(s, cs) && s != [] {
      assert LeadingCount(s, cs) == 0;
      assert KeptCount(s, cs) == |s|;
    }
  }

  /** Stripping twice is stripping once. */
  lemma StripAnyIdempotent(s: string, cs: char -> bool)
    ensures StripAny(StripAny(s, cs), cs) == StripAny(s, cs)
  {
    StripAnyShape(s, cs);
    StripAnyFixed(StripAny(s, cs), cs);
  }

  lemma {:induction false} LeadingCountPrefix(p: string, s: string, cs: char -> bool)
    requires forall k :: 0 <= k < |p| ==> cs(p[k])
    ensures LeadingCount(p + s, cs) == |p| + LeadingCount(s, cs)
  {
    if p == [] {
      assert p + s == s;
    } else {
      assert (p + s)[0] == p[0];
      assert (p + s)[1..] == p[1..] + s;
      LeadingCountPrefix(p[1..], s, cs);
    }
  }

  /** Leading characters of `cs` never survive `strip(cs)`, whatever follows them. */
  lemma StripAnyDropsPrefix(p: string, s: string, cs: char -> bool)
    requires forall k :: 0 <= k < |p| ==> cs(p[k])
    ensures StripAny(p + s, cs) == StripAny(s, cs)
  {
    LeadingCountPrefix(p, s, cs);
    assert TrimStart(p + s, cs) == TrimStart(s, cs);
  }

  /** `s.startswith(p)`. */
  predicate StartsWith(s: string, p: string) {
    |p| <= |s| && s[..|p|] == p
  }

  /** `s.endswith(p)`. */
  predicate EndsWith(s: string, p: string) {
    |p| <= |s| && s[|s| - |p|..] == p
  }

  /** `s.split(sep)` for a non-empty separator: scans left to right, cutting
      at every non-overlapping occurrence. */
  function SplitOn(s: string, sep: string): (parts: seq<string>)
    requires sep != []
    ensures |parts| >= 1
    decreases |s|
  {
    if StartsWith(s, sep) then [""] + SplitOn(s[|sep|..], sep)
    else if s == [] then [""]
    else
      var rest := SplitOn(s[1..], sep);
      [[s[0]] + rest[0]] + rest[1..]
  }

  /** `sep.join(parts)`. */
  function Join(parts: seq<string>, sep: string): string {
    if parts == [] then ""
    else if |parts| == 1 then parts[0]
    else parts[0] + sep + Join(parts[1..], sep)
  }

  /** `s.replace(pat, rep)` for a non-empty pattern: every non-overlapping
      occurrence of `pat`, found left to right, is replaced by `rep`. */
  function ReplaceAll(s: string, pat: string, rep: string): string
    requires pat != []
    decreases |s|
  {
    if StartsWith(s, pat) then rep + ReplaceAll(s[|pat|..], pat, rep)
    else if s == [] then []
    else [s[0]] + ReplaceAll(s[1..], pat, rep)
  }

  /** The index of the first occurrence of `c` in `s`. */
  function IndexOf(s: string, c: char): (i: nat)
    requires c in s
    ensures i < |s| && s[i] == c && c !in s[..i]
  {
    if s[0] == c then 0 else 1 + IndexOf(s[1..], c)
  }

  /** The text between the first occurrence of `c` and the next one, or the
      end of `s` when there is no next one. */
  function AfterFirst(s: string, c: char): string
    requires c in s
  {
    var t := s[IndexOf(s, c) + 1..];
    if c in t then t[..IndexOf(t, c)] else t
  }

  /** `s.split(c, 1)` when `c` occurs: the text before and after its first occurrence. */
  function SplitFirst(s: string, c: char): (string, string)
    requires c in s
  {
    var i := IndexOf(s, c);
    (s[..i], s[i + 1..])
  }

  /** Splitting at a character that does not occur yields the whole string. */
  lemma {:induction false} SplitAbsent(s: string, c: char)
    requires c !in s
    ensures SplitOn(s, [c]) == [s]
  {
    if s != [] {
      assert s[1..] == s[1..];
      assert c !in s[1..];
      SplitAbsent(s[1..], c);
      assert [s[0]] + s[1..] == s;
    }
  }

  /** Splitting `p + c + rest` at `c`, where `p` holds no `c`, cuts off exactly `p`. */
  lemma {:induction false} SplitFirstPiece(p: string, c: char, rest: string)
    requires c !in p
    ensures SplitOn(p + [c] + rest, [c]) == [p] + SplitOn(rest, [c])
  {
    var s := p + [c] + rest;
    if p == [] {
      assert s == [c] + rest;
      assert StartsWith(s, [c]);
      assert s[1..] == rest;
    } else {
      assert s[0] == p[0] && p[0] != c;
      assert !StartsWith(s, [c]);
      assert s[1..] == p[1..] + [c] + rest;
      SplitFirstPiece(p[1..], c, rest);
      assert [p[0]] + p[1..] == p;
    }
  }

  lemma CutAt(s: string, i: nat)
    requires i < |s|
    ensures s == s[..i] + [s[i]] + s[i + 1..]
  {
  }

  /** `split(c)` has more than one part exactly when `c` occurs. */
  lemma {:induction false} SplitHasSecond(s: string, c: char)
    ensures |SplitOn(s, [c])| > 1 <==> c in s
  {
    if c in s {
      var i := IndexOf(s, c);
      assert s == s[..i] + [c] + s[i + 1..];
      SplitFirstPiece(s[..i], c, s[i + 1..]);
    } else {
      SplitAbsent(s, c);
    }
  }

  /** `s.split(c)[1]` is the text between the first and the second `c`
      (or up to the end when there is no second one). */
  lemma {:induction false} SplitSecondSegment(s: string, c: char)
    requires c in s
    ensures |SplitOn(s, [c])| > 1
    ensures SplitOn(s, [c])[1] == AfterFirst(s, c)
  {
    var i := IndexOf(s, c);
    var t := s[i + 1..];
    assert s == s[..i] + [c] + t;
    SplitFirstPiece(s[..i], c, t);
    assert SplitOn(s, [c]) == [s[..i]] + SplitOn(t, [c]);
    if c in t {
      var j := IndexOf(t, c);
      CutAt(t, j);
      SplitFirstPiece(t[..j], c, t[j + 1..]);
    } else {
      SplitAbsent(t, c);
    }
  }

  /** Joining pieces that hold no `c` with `c`, then splitting at `c`, gives the pieces back. */
  lemma {:induction false} SplitJoin(parts: seq<string>, c: char)
    requires |parts| >= 1
    requires forall k :: 0 <= k < |parts| ==> c !in parts[k]
    ensures SplitOn(Join(parts, [c]), [c]) == parts
  {
    if |parts| == 1 {
      SplitAbsent(parts[0], c);
    } else {
      SplitJoin(parts[1..], c);
      SplitFirstPiece(parts[0], c, Join(parts[1..], [c]));
      assert [parts[0]] + parts[1..] == parts;
    }
  }

  lemma {:induction false} JoinPrependChar(ch: char, x: string, xs: seq<string>, sep: string)
    ensures Join([[ch] + x] + xs, sep) == [ch] + Join([x] + xs, sep)
  {
    if xs != [] {
      assert ([[ch] + x] + xs)[1..] == xs;
      assert ([x] + xs)[1..] == xs;
    }
  }

  /** Python's identity `s.replace(old, new) == new.join(s.split(old))`: the
      replacement is the split pieces glued back with the replacement text. */
  lemma {:induction false} ReplaceIsJoinOfSplit(s: string, pat: string, rep: string)
    requires pat != []
    ensures ReplaceAll(s, pat, rep) == Join(SplitOn(s, pat), rep)
    decreases |s|
  {
    if StartsWith(s, pat) {
      var rest := SplitOn(s[|pat|..], pat);
      ReplaceIsJoinOfSplit(s[|pat|..], pat, rep);
      var parts := [""] + rest;
      assert SplitOn(s, pat) == parts;
      assert parts[0] == "" && parts[1..] == rest;
      assert Join(parts, rep) == "" + rep + Join(rest, rep);
    } else if s != [] {
      var rest := SplitOn(s[1..], pat);
      ReplaceIsJoinOfSplit(s[1..], pat, rep);
      assert SplitOn(s, pat) == [[s[0]] + rest[0]] + rest[1..];
      JoinPrependChar(s[0], rest[0], rest[1..], rep);
      assert [rest[0]] + rest[1..] == rest;
    }
  }

  /** `pat in s` for strings: `pat` occurs in `s` at some position. */
  predicate Contains(s: string, pat: string)
    decreases |s|
  {
    StartsWith(s, pat) || (s != [] && Contains(s[1..], pat))
  }

  /** A string in which the pattern never occurs is left unchanged by `replace`. */
  lemma {:induction false} ReplaceAbsent(s: string, pat: string, rep: string)
    requires pat != []
    requires !Contains(s, pat)
    ensures ReplaceAll(s, pat, rep) == s
    decreases |s|
  {
    if s != [] {
      ReplaceAbsent(s[1..], pat, rep);
      assert [s[0]] + s[1..] == s;
    }
  }

  /** The list comprehension `[f(x) for x in xs if keep(x)]`. */
  function Comprehension<T, U>(xs: seq<T>, keep: T -> bool, f: T -> U): (ys: seq<U>)
    ensures |ys| <= |xs|
  {
    if xs == [] then []
    else if keep(xs[0]) then [f(xs[0])] + Comprehension(xs[1..], keep, f)
    else Comprehension(xs[1..], keep, f)
  }

  /** Every element of a comprehension comes from a kept element of its source. */
  lemma {:induction false} ComprehensionFrom<T, U>(xs: seq<T>, keep: T -> bool, f: T -> U)
    ensures forall y | y in Comprehension(xs, keep, f) :: exists k :: 0 <= k < |xs| && keep(xs[k]) && y == f(xs[k])
  {
    if xs != [] {
      var tail := xs[1..];
      ComprehensionFrom(tail, keep, f);
      forall y | y in Comprehension(tail, keep, f)
        ensures exists k :: 0 <= k < |xs| && keep(xs[k]) && y == f(xs[k])
      {
        var k :| 0 <= k < |tail| && keep(tail[k]) && y == f(tail[k]);
        assert tail[k] == xs[k + 1];
      }
    }
  }

  /** Every kept element of the source shows up in the comprehension. */
  lemma {:induction false} ComprehensionHas<T, U>(xs: seq<T>, keep: T -> bool, f: T -> U, k: int)
    requires 0 <= k < |xs| && keep(xs[k])
    ensures f(xs[k]) in Comprehension(xs, keep, f)
  {
    if k > 0 {
      assert xs[1..][k - 1] == xs[k];
      ComprehensionHas(xs[1..], keep, f, k - 1);
    }
  }

  /** When every element is kept, the comprehension is a map, in order. */
  lemma {:induction false} ComprehensionAllKept<T, U>(xs: seq<T>, keep: T -> bool, f: T -> U)
    requires forall k :: 0 <= k < |xs| ==> keep(xs[k])
    ensures |Comprehension(xs, keep, f)| == |xs|
    ensures forall k :: 0 <= k < |xs| ==> Comprehension(xs, keep, f)[k] == f(xs[k])
  {
    if xs != [] {
      var tail := xs[1..];
      assert forall k :: 0 <= k < |tail| ==> tail[k] == xs[k + 1];
      ComprehensionAllKept(tail, keep, f);
    }
  }

  /** A comprehension over a longer source extends the comprehension over the
      shorter one: what a loop that appends kept elements builds. */
  lemma {:induction false} ComprehensionSnoc<T, U>(xs: seq<T>, x: T, keep: T -> bool, f: T -> U)
    ensures Comprehension(xs + [x], keep, f) == Comprehension(xs, keep, f) + (if keep(x) then [f(x)] else [])
  {
    if xs == [] {
      assert xs + [x] == [x];
      assert [x][1..] == [];
    } else {
      assert (xs + [x])[0] == xs[0];
      assert (xs + [x])[1..] == xs[1..] + [x];
      ComprehensionSnoc(xs[1..], x, keep, f);
    }
  }

  /** Each line written with a line break after it: what a loop of
      `file.write(line + '\n')` leaves in a file. */
  function Terminated(lines: seq<string>): string {
    if lines == [] then "" else lines[0] + "\n" + Terminated(lines[1..])
  }

  /** Newline-terminated lines are the lines joined with newlines, plus one final empty piece. */
  lemma {:induction false} TerminatedIsJoin(lines: seq<string>)
    ensures Terminated(lines) == Join(lines + [""], "\n")
  {
    if lines != [] {
      TerminatedIsJoin(lines[1..]);
      assert (lines + [""])[1..] == lines[1..] + [""];
    }
  }

  lemma {:induction false} TerminatedAppend(a: seq<string>, b: seq<string>)
    ensures Terminated(a + b) == Terminated(a) + Terminated(b)
  {
    if a == [] {
      assert a + b == b;
    } else {
      assert (a + b)[0] == a[0];
      assert (a + b)[1..] == a[1..] + b;
      TerminatedAppend(a[1..], b);
    }
  }

  /** Reading back newline-terminated lines that hold no newline gives the
      lines, followed by the empty text after the last line break. */
  lemma {:induction false} TerminatedLines(lines: seq<string>)
    requires forall k :: 0 <= k < |lines| ==> '\n' !in lines[k]
    ensures SplitOn(Terminated(lines), "\n") == lines + [""]
  {
    TerminatedIsJoin(lines);
    SplitJoin(lines + [""], '\n');
  }

  /** No piece of `split(c)` contains `c`. */
  lemma {:induction false} SplitPiecesLackSeparator(s: string, c: char)
    ensures forall k :: 0 <= k < |SplitOn(s, [c])| ==> c !in SplitOn(s, [c])[k]
    decreases |s|
  {
    if StartsWith(s, [c]) {
      SplitPiecesLackSeparator(s[1..], c);
      assert SplitOn(s, [c]) == [""] + SplitOn(s[1..], [c]);
    } else if s != [] {
      SplitPiecesLackSeparator(s[1..], c);
      assert s[0] != c;
    }
  }

  /** A pattern whose first character never occurs is not contained. */
  lemma {:induction false} LeadAbsentNotContained(s: string, pat: string)
    requires pat != [] && pat[0] !in s
    ensures !Contains(s, pat)
    decreases |s|
  {
    if s != [] {
      assert s[0] != pat[0];
      LeadAbsentNotContained(s[1..], pat);
    }
  }

  /** `s.replace(c, d)` leaves no `c` behind. */
  lemma {:induction false} ReplaceClears(s: string, c: char, d: char)
    requires c != d
    ensures c !in ReplaceAll(s, [c], [d])
    decreases |s|
  {
    if StartsWith(s, [c]) {
      ReplaceClears(s[1..], c, d);
    } else if s != [] {
      ReplaceClears(s[1..], c, d);
      assert s[0] != c;
    }
  }

  /** A character absent from `s` is absent from every piece of `s.split(sep)`. */
  lemma {:induction false} SplitPiecesKeepAbsent(s: string, sep: string, c: char)
    requires sep != [] && c !in s
    ensures forall k :: 0 <= k < |SplitOn(s, sep)| ==> c !in SplitOn(s, sep)[k]
    decreases |s|
  {
    if StartsWith(s, sep) {
      SplitPiecesKeepAbsent(s[|sep|..], sep, c);
      assert SplitOn(s, sep) == [""] + SplitOn(s[|sep|..], sep);
    } else if s != [] {
      var rest := SplitOn(s[1..], sep);
      SplitPiecesKeepAbsent(s[1..], sep, c);
      assert SplitOn(s, sep) == [[s[0]] + rest[0]] + rest[1..];
      assert s[0] != c;
    }
  }

  /** Terminating lines that lack a character other than the line break
      produces a text that lacks it too. */
  lemma {:induction false} TerminatedLacks(lines: seq<string>, c: char)
    requires c != '\n'
    requires forall k :: 0 <= k < |lines| ==> c !in lines[k]
    ensures c !in Terminated(lines)
  {
    if lines != [] {
      TerminatedLacks(lines[1..], c);
      assert c !in lines[0];
    }
  }

  /** One more `file.write(line + '\n')`. */
  lemma TerminatedSnoc(lines: seq<string>, line: string)
    ensures Terminated(lines + [line]) == Terminated(lines) + line + "\n"
  {
    TerminatedAppend(lines, [line]);
    assert Terminated([line]) == line + "\n" + Terminated([]);
  }

  /** Joining pieces that lack `c` with a separator that lacks `c` gives a text without `c`. */
  lemma {:induction false} JoinLacks(parts: seq<string>, sep: string, c: char)
    requires c !in sep
    requires forall k :: 0 <= k < |parts| ==> c !in parts[k]
    ensures c !in Join(parts, sep)
  {
    if |parts| > 1 {
      JoinLacks(parts[1..], sep, c);
      assert c !in parts[0];
    } else if |parts| == 1 {
      assert c !in parts[0];
    }
  }

  /** A string that begins with a character outside `cs` keeps that
      character in front after `strip(cs)`, unless nothing is left. */
  lemma StripAnyKeepsHead(s: string, cs: char -> bool)
    requires s != [] && !cs(s[0])
    ensures StripAny(s, cs) == [] || StripAny(s, cs)[0] == s[0]
  {
    assert LeadingCount(s, cs) == 0;
    assert TrimStart(s, cs) == s;
  }

  /** The first `c` of `p + [c] + rest`, where `p` holds no `c`, is right after `p`. */
  lemma {:induction false} IndexOfFirst(p: string, c: char, rest: string)
    requires c !in p
    ensures IndexOf(p + [c] + rest, c) == |p|
  {
    var s := p + [c] + rest;
    if p != [] {
      assert s[0] == p[0];
      assert s[1..] == p[1..] + [c] + rest;
      IndexOfFirst(p[1..], c, rest);
    } else {
      assert s[0] == c;
    }
  }

  /** `strip(cs)` never brings in a character its input lacks. */
  lemma StripAnyLacks(s: string, cs: char -> bool, c: char)
    requires c !in s
    ensures c !in StripAny(s, cs)
  {
    StripAnyShape(s, cs);
    var i, j :| 0 <= i <= j <= |s| && StripAny(s, cs) == s[i..j];
    assert forall k :: 0 <= k < j - i ==> s[i..j][k] == s[i + k];
  }
}
