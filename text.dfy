/**
  The JavaScript string operations the core relies on, as used in
  lib/params.ts, app/profiles/page.tsx and app/bidders/page.tsx:
  `trim`, `split` on a single character, `join`, `includes`,
  `toLowerCase` (ASCII letters only), the integer test `/^-?\d+$/`,
  `parseInt(_, 10)` and `String(n)` for integers.
*/
module Text {

  /** The code points JavaScript's `String.prototype.trim` removes:
      the WhiteSpace and LineTerminator productions of ECMAScript. */
  predicate IsWhitespace(c: char) {
    var n := c as int;
    n == 0x09 || n == 0x0A || n == 0x0B || n == 0x0C || n == 0x0D || n == 0x20
    || n == 0xA0 || n == 0x1680 || (0x2000 <= n <= 0x200A) || n == 0x2028
    || n == 0x2029 || n == 0x202F || n == 0x205F || n == 0x3000 || n == 0xFEFF
  }

  predicate IsBlank(s: string) {
    forall i :: 0 <= i < |s| ==> IsWhitespace(s[i])
  }

  /** Drops leading whitespace. */
  function TrimStart(s: string): (r: string)
    ensures |r| <= |s| && r == s[|s| - |r|..]
    ensures forall i :: 0 <= i < |s| - |r| ==> IsWhitespace(s[i])
    ensures r != [] ==> !IsWhitespace(r[0])
    decreases |s|
  {
    if |s| > 0 && IsWhitespace(s[0]) then
      var r := TrimStart(s[1..]);
      assert forall i :: 1 <= i < |s| - |r| ==> s[i] == s[1..][i - 1];
      r
    else s
  }

  /** Drops trailing whitespace. */
  function TrimEnd(s: string): (r: string)
    ensures |r| <= |s| && r == s[..|r|]
    ensures forall i :: |r| <= i < |s| ==> IsWhitespace(s[i])
    ensures r != [] ==> !IsWhitespace(r[|r| - 1])
    decreases |s|
  {
    if |s| > 0 && IsWhitespace(s[|s| - 1]) then TrimEnd(s[..|s| - 1]) else s
  }

  /** `s.trim()`: empty exactly for blank text, otherwise bounded by
      non-whitespace characters on both sides. */
  function Trim(s: string): (r: string)
    ensures r == [] <==> IsBlank(s)
    ensures r != [] ==> !IsWhitespace(r[0]) && !IsWhitespace(r[|r| - 1])
    ensures |r| <= |s|
  {
    TrimParts(s);
    TrimEnd(TrimStart(s))
  }

  lemma TrimParts(s: string)
    ensures TrimEnd(TrimStart(s)) == [] <==> IsBlank(s)
  {
    if TrimEnd(TrimStart(s)) == [] {
      assert TrimStart(s) == [];
    }
  }

  /** Trimming only removes characters. */
  lemma TrimChars(s: string)
    ensures forall c :: c in Trim(s) ==> c in s
  {
    var t := TrimStart(s);
    SliceChars(s, |s| - |t|);
    SliceChars(t, |TrimEnd(t)|);
  }

  /** A suffix and a prefix of a string hold only its characters. */
  lemma SliceChars(s: string, d: nat)
    requires d <= |s|
    ensures forall c :: c in s[d..] ==> c in s
    ensures forall c :: c in s[..d] ==> c in s
  {
    assert s == s[..d] + s[d..];
  }

  lemma {:induction false} TrimIdempotent(s: string)
    ensures Trim(Trim(s)) == Trim(s)
  {
    var r := Trim(s);
    if r != [] {
      assert TrimStart(r) == r;
      assert TrimEnd(r) == r;
    }
  }

  /** A string that already starts and ends with non-whitespace is its own trim. */
  lemma TrimOfTrimmed(s: string)
    requires s != [] && !IsWhitespace(s[0]) && !IsWhitespace(s[|s| - 1])
    ensures Trim(s) == s
  {
    assert TrimStart(s) == s;
  }

  /** Lower-casing that changes only the ASCII letters `A`-`Z`. */
  function LowerChar(c: char): char {
    if 'A' <= c <= 'Z' then (c as int + 32) as char else c
  }

  /** `s.toLowerCase()` restricted to ASCII letters. */
  function Lower(s: string): (r: string)
    ensures |r| == |s|
  {
    seq(|s|, i requires 0 <= i < |s| => LowerChar(s[i]))
  }

  /** Lower-casing turns each capital `A`-`Z` into its small letter, 32
      code points on, leaves no upper-case ASCII letter and changes nothing
      else. */
  lemma LowerSpec(s: string)
    ensures forall i :: 0 <= i < |s| && 'A' <= s[i] <= 'Z' ==> Lower(s)[i] as int == s[i] as int + 32
    ensures forall i :: 0 <= i < |s| ==> !('A' <= Lower(s)[i] <= 'Z')
    ensures forall i :: 0 <= i < |s| && !('A' <= s[i] <= 'Z') ==> Lower(s)[i] == s[i]
  {
  }

  lemma LowerIdempotent(s: string)
    ensures Lower(Lower(s)) == Lower(s)
  {
  }

  /** Lower-casing never turns a character into whitespace or out of it. */
  lemma LowerKeepsWhitespace(c: char)
    ensures IsWhitespace(LowerChar(c)) == IsWhitespace(c)
  {
  }

  lemma {:induction false} TrimStartLower(s: string)
    ensures TrimStart(Lower(s)) == Lower(TrimStart(s))
    decreases |s|
  {
    if |s| > 0 {
      LowerKeepsWhitespace(s[0]);
      if IsWhitespace(s[0]) {
        assert Lower(s)[1..] == Lower(s[1..]);
        TrimStartLower(s[1..]);
      }
    }
  }

  lemma {:induction false} TrimEndLower(s: string)
    ensures TrimEnd(Lower(s)) == Lower(TrimEnd(s))
    decreases |s|
  {
    if |s| > 0 {
      LowerKeepsWhitespace(s[|s| - 1]);
      if IsWhitespace(s[|s| - 1]) {
        assert Lower(s)[..|s| - 1] == Lower(s[..|s| - 1]);
        TrimEndLower(s[..|s| - 1]);
      }
    }
  }

  /** Trimming and lower-casing commute. */
  lemma TrimLower(s: string)
    ensures Trim(Lower(s)) == Lower(Trim(s))
  {
    TrimStartLower(s);
    TrimEndLower(TrimStart(s));
  }

  /** `q` occurs in `s` starting at position `i`. */
  predicate OccursAt(s: string, q: string, i: nat) {
    i + |q| <= |s| && s[i..i + |q|] == q
  }

  /** `s.includes(q)`: `q` occurs somewhere in `s`. */
  function Contains(s: string, q: string): (found: bool)
    ensures found <==> exists i: nat :: OccursAt(s, q, i)
    decreases |s|
  {
    if |q| <= |s| && s[..|q|] == q then
      assert OccursAt(s, q, 0);
      true
    else if |s| == 0 then
      false
    else
      var found := Contains(s[1..], q);
      assert found ==> exists i: nat :: OccursAt(s, q, i) by {
        if found {
          var j: nat :| OccursAt(s[1..], q, j);
          assert s[j + 1..j + 1 + |q|] == s[1..][j..j + |q|];
          assert OccursAt(s, q, j + 1);
        }
      }
      assert (exists i: nat :: OccursAt(s, q, i)) ==> found by {
        if exists i: nat :: OccursAt(s, q, i) {
          var i: nat :| OccursAt(s, q, i);
          assert i != 0;
          assert s[1..][i - 1..i - 1 + |q|] == s[i..i + |q|];
          assert OccursAt(s[1..], q, i - 1);
        }
      }
      found
  }

  /** `parts.join(sep)`. */
  function Join(parts: seq<string>, sep: string): string
  {
    if |parts| == 0 then ""
    else if |parts| == 1 then parts[0]
    else parts[0] + sep + Join(parts[1..], sep)
  }

  /** A join starts with the first part's first character. */
  lemma JoinFirst(parts: seq<string>, sep: string)
    requires |parts| > 0 && parts[0] != []
    ensures |Join(parts, sep)| > 0 && Join(parts, sep)[0] == parts[0][0]
  {
  }

  lemma JoinSnoc(parts: seq<string>, x: string, sep: string)
    requires |parts| > 0
    ensures Join(parts + [x], sep) == Join(parts, sep) + sep + x
    decreases |parts|
  {
    if |parts| > 1 {
      assert (parts + [x])[1..] == parts[1..] + [x];
      JoinSnoc(parts[1..], x, sep);
    } else {
      assert (parts + [x])[1..] == [x];
    }
  }

  /** Trimming lines joined by a separator, when the first and the last
      line start with non-whitespace, only trims the end of the last line. */
  lemma TrimJoin(lines: seq<string>, sep: string)
    requires |lines| > 0
    requires lines[0] != [] && !IsWhitespace(lines[0][0])
    requires lines[|lines| - 1] != [] && !IsWhitespace(lines[|lines| - 1][0])
    ensures Trim(Join(lines, sep)) == Join(LastTrimmed(lines), sep)
  {
    var n := |lines|;
    var init, last := lines[..n - 1], lines[n - 1];
    assert lines == init + [last];
    if n == 1 {
      assert init + [TrimEnd(last)] == [TrimEnd(last)];
      assert TrimStart(last) == last;
    } else {
      JoinSnoc(init, last, sep);
      JoinSnoc(init, TrimEnd(last), sep);
      var prefix := Join(init, sep) + sep;
      JoinFirst(init, sep);
      assert (prefix + last)[0] == init[0][0];
      assert TrimStart(prefix + last) == prefix + last;
      TrimEndAppend(prefix, last);
    }
  }

  /** `k: ` loses only its trailing space to trimming. */
  lemma ColonSpaceTrims(k: string)
    requires k != [] && !IsWhitespace(k[0])
    ensures TrimEnd(k + ": ") == k + ":"
    ensures Trim(k + ": ") == k + ":"
  {
    ColonSpaceTrimEnd(k);
    TrimStartNoop(k + ": ");
  }

  lemma ColonSpaceTrimEnd(k: string)
    ensures TrimEnd(k + ": ") == k + ":"
  {
    var s := k + ": ";
    assert s[..|s| - 1] == k + ":";
    TrimEndNoop(k + ":");
  }

  lemma TrimStartNoop(s: string)
    requires s != [] && !IsWhitespace(s[0])
    ensures TrimStart(s) == s
  {
  }

  lemma TrimEndNoop(s: string)
    requires s != [] && !IsWhitespace(s[|s| - 1])
    ensures TrimEnd(s) == s
  {
  }

  /** `k: r` with non-whitespace at both ends is unchanged by trimming. */
  lemma ColonValueTrims(k: string, r: string)
    requires k != [] && !IsWhitespace(k[0])
    requires r != [] && !IsWhitespace(r[|r| - 1])
    ensures TrimEnd(k + ": " + r) == k + ": " + r
    ensures Trim(k + ": " + r) == k + ": " + r
  {
    var s := k + ": " + r;
    assert s[0] == k[0] && s[|s| - 1] == r[|r| - 1];
    TrimOfTrimmed(s);
  }

  lemma {:induction false} TrimEndAppend(a: string, b: string)
    requires b != [] && !IsWhitespace(b[0])
    ensures TrimEnd(a + b) == a + TrimEnd(b)
    decreases |b|
  {
    var s := a + b;
    if IsWhitespace(s[|s| - 1]) {
      assert |b| > 1;
      assert s[..|s| - 1] == a + b[..|b| - 1];
      TrimEndAppend(a, b[..|b| - 1]);
    }
  }

  /** `s.split(sep)` for a one-character separator: every piece between
      separators, so there is always at least one piece. */
  function SplitOn(s: string, sep: char): (pieces: seq<string>)
    ensures |pieces| >= 1
    ensures forall i :: 0 <= i < |pieces| ==> sep !in pieces[i]
    ensures (sep in s) <==> |pieces| >= 2
    decreases |s|
  {
    if s == [] then [""]
    else
      var rest := SplitOn(s[1..], sep);
      if s[0] == sep then [""] + rest
      else
        [[s[0]] + rest[0]] + rest[1..]
  }

  /** Joining the pieces with the separator gives back the text. */
  lemma {:induction false} JoinSplit(s: string, sep: char)
    ensures Join(SplitOn(s, sep), [sep]) == s
    decreases |s|
  {
    if s != [] {
      var rest := SplitOn(s[1..], sep);
      JoinSplit(s[1..], sep);
      if s[0] == sep {
        assert ([""] + rest)[1..] == rest;
      } else {
        var pieces := [[s[0]] + rest[0]] + rest[1..];
        assert SplitOn(s, sep) == pieces;
        if |rest| > 1 {
          assert pieces[1..] == rest[1..];
        }
      }
    }
  }

  /** Splitting text that starts with a separator-free prefix. */
  lemma {:induction false} SplitPrefix(a: string, t: string, sep: char)
    requires sep !in a
    ensures SplitOn(a + t, sep) == [a + SplitOn(t, sep)[0]] + SplitOn(t, sep)[1..]
    decreases |a|
  {
    if a != [] {
      assert (a + t)[1..] == a[1..] + t;
      SplitPrefix(a[1..], t, sep);
      assert [a[0]] + (a[1..] + SplitOn(t, sep)[0]) == a + SplitOn(t, sep)[0];
    } else {
      var pieces := SplitOn(t, sep);
      assert a + t == t;
      assert a + pieces[0] == pieces[0];
      assert [pieces[0]] + pieces[1..] == pieces;
    }
  }

  /** Text without the separator is one piece. */
  lemma SplitOne(x: string, sep: char)
    requires sep !in x
    ensures SplitOn(x, sep) == [x]
  {
    SplitPrefix(x, "", sep);
    assert x + "" == x;
  }

  /** A separator-free piece followed by the separator comes off first. */
  lemma SplitCons(x: string, y: string, sep: char)
    requires sep !in x
    ensures SplitOn(x + [sep] + y, sep) == [x] + SplitOn(y, sep)
  {
    assert x + [sep] + y == x + ([sep] + y);
    assert ([sep] + y)[1..] == y;
    assert SplitOn([sep] + y, sep) == [""] + SplitOn(y, sep);
    SplitPrefix(x, [sep] + y, sep);
    assert x + "" == x;
  }

  /** Splitting a join of separator-free pieces gives back the pieces. */
  lemma {:induction false} SplitJoin(parts: seq<string>, sep: char)
    requires |parts| >= 1
    requires forall i :: 0 <= i < |parts| ==> sep !in parts[i]
    ensures SplitOn(Join(parts, [sep]), sep) == parts
    decreases |parts|
  {
    if |parts| == 1 {
      SplitPrefix(parts[0], "", sep);
      assert parts[0] + "" == parts[0];
    } else {
      var tail := Join(parts[1..], [sep]);
      SplitJoin(parts[1..], sep);
      assert ([sep] + tail)[1..] == tail;
      assert SplitOn([sep] + tail, sep) == [""] + SplitOn(tail, sep);
      assert parts[0] + [sep] + tail == parts[0] + ([sep] + tail);
      SplitPrefix(parts[0], [sep] + tail, sep);
      assert parts[0] + "" == parts[0];
      assert ([""] + parts[1..])[1..] == parts[1..];
    }
  }

  /** `s.split(/\r?\n/)`: the pieces between line feeds; a piece followed
      by a line feed loses the carriage return just before it. */
  function SplitLines(s: string): (lines: seq<string>)
    ensures |lines| >= 1
    ensures forall i :: 0 <= i < |lines| ==> '\n' !in lines[i]
  {
    var pieces := SplitOn(s, '\n');
    seq(|pieces|, i requires 0 <= i < |pieces| =>
      var p := pieces[i];
      if i < |pieces| - 1 && |p| > 0 && p[|p| - 1] == '\r' then p[..|p| - 1] else p)
  }

  /** Text without a line feed is one line. */
  lemma SplitLinesOne(x: string)
    requires '\n' !in x
    ensures SplitLines(x) == [x]
  {
    SplitOne(x, '\n');
  }

  /** A carriage return and line feed separate two lines like a line feed
      alone; the carriage return belongs to neither line. */
  lemma CrLfSeparates(a: string, b: string)
    requires '\n' !in a && '\n' !in b
    ensures SplitLines(a + "\r\n" + b) == [a, b]
  {
    var x := a + ['\r'];
    assert a + "\r\n" + b == x + ['\n'] + b;
    SplitCons(x, b, '\n');
    SplitOne(b, '\n');
    assert x[..|x| - 1] == a;
  }

  /** Text that starts with a non-whitespace line is not blank. */
  lemma JoinNotBlank(lines: seq<string>, sep: string)
    requires |lines| > 0 && lines[0] != [] && !IsWhitespace(lines[0][0])
    ensures Trim(Join(lines, sep)) != []
  {
    JoinFirst(lines, sep);
    assert !IsWhitespace(Join(lines, sep)[0]);
  }

  /** A line that starts with non-whitespace, holds no line feed and does
      not end in a carriage return. */
  predicate PlainLine(l: string) {
    l != [] && !IsWhitespace(l[0]) && '\n' !in l && l[|l| - 1] != '\r'
  }

  /** `k: r` is a plain line when `k` starts with non-whitespace and `r`
      does not end with whitespace. */
  lemma PairLinePlain(k: string, r: string)
    requires k != [] && !IsWhitespace(k[0]) && '\n' !in k && '\n' !in r
    requires r == [] || !IsWhitespace(r[|r| - 1])
    ensures PlainLine(k + ": " + r)
  {
    var s := k + ": " + r;
    assert s[0] == k[0];
    assert s[|s| - 1] == if r == [] then ' ' else r[|r| - 1];
  }

  /** The lines with the end of the last one trimmed. */
  function LastTrimmed(lines: seq<string>): (r: seq<string>)
    requires |lines| > 0
    ensures |r| == |lines|
  {
    lines[..|lines| - 1] + [TrimEnd(lines[|lines| - 1])]
  }

  /** Lines without line feeds, none but the last ending in a carriage
      return, come back from `split(/\r?\n/)` of their join. */
  lemma SplitLinesJoin(lines: seq<string>)
    requires |lines| > 0 && Rejoinable(lines)
    ensures SplitLines(Join(lines, "\n")) == lines
  {
    assert "\n" == ['\n'];
    SplitJoin(lines, '\n');
    var r := SplitLines(Join(lines, "\n"));
    assert |r| == |lines|;
    assert forall i :: 0 <= i < |r| ==> r[i] == lines[i];
  }

  /** No line holds a line feed, and none but the last ends in a carriage
      return. */
  predicate Rejoinable(lines: seq<string>) {
    && (forall i :: 0 <= i < |lines| ==> '\n' !in lines[i])
    && (forall i :: 0 <= i < |lines| - 1 ==> lines[i] == [] || lines[i][|lines[i]| - 1] != '\r')
  }

  /** Lines without line feeds or trailing carriage returns, the first and
      last starting with non-whitespace, survive joining with line feeds,
      trimming and splitting again; only the end of the last is trimmed. */
  lemma SplitTrimmedJoin(lines: seq<string>)
    requires |lines| > 0
    requires lines[0] != [] && !IsWhitespace(lines[0][0])
    requires lines[|lines| - 1] != [] && !IsWhitespace(lines[|lines| - 1][0])
    requires Rejoinable(lines)
    ensures SplitLines(Trim(Join(lines, "\n"))) == LastTrimmed(lines)
  {
    TrimJoin(lines, "\n");
    LastTrimmedLines(lines);
    SplitLinesJoin(LastTrimmed(lines));
  }

  /** Trimming the end of the last line keeps the lines rejoinable. */
  lemma LastTrimmedLines(lines: seq<string>)
    requires |lines| > 0 && Rejoinable(lines)
    ensures Rejoinable(LastTrimmed(lines))
  {
    var n := |lines|;
    var last := TrimEnd(lines[n - 1]);
    var r := LastTrimmed(lines);
    assert '\n' !in last by {
      assert forall k :: 0 <= k < |last| ==> last[k] == lines[n - 1][k];
    }
    assert forall i :: 0 <= i < n - 1 ==> r[i] == lines[i];
  }

  /** Position of the first `c` in `s`, or `|s|` when there is none. */
  function IndexOf(s: string, c: char): (i: nat)
    ensures i <= |s| && c !in s[..i]
    ensures i < |s| ==> s[i] == c
    ensures i == |s| <==> c !in s
    decreases |s|
  {
    if s == [] then 0
    else if s[0] == c then 0
    else
      var i := 1 + IndexOf(s[1..], c);
      assert s[..i] == [s[0]] + s[1..][..i - 1];
      i
  }

  /** The first piece of a split is the text before the first separator. */
  lemma FirstPiece(s: string, sep: char)
    ensures SplitOn(s, sep)[0] == s[..IndexOf(s, sep)]
  {
    var i := IndexOf(s, sep);
    assert s == s[..i] + s[i..];
    SplitPrefix(s[..i], s[i..], sep);
    if i < |s| {
      assert s[i..][0] == sep;
      assert SplitOn(s[i..], sep)[0] == "";
    }
    assert s[..i] + "" == s[..i];
  }

  /** With a separator present, the split is the text before the first
      separator followed by the split of the text after it. */
  lemma SplitAtFirst(s: string, sep: char)
    requires sep in s
    ensures SplitOn(s, sep) == [s[..IndexOf(s, sep)]] + SplitOn(s[IndexOf(s, sep) + 1..], sep)
  {
    var i := IndexOf(s, sep);
    assert s == s[..i] + [sep] + s[i + 1..];
    SplitCons(s[..i], s[i + 1..], sep);
  }

  /** Searching past a separator-free prefix. */
  lemma {:induction false} IndexOfAppend(a: string, t: string, c: char)
    requires c !in a
    ensures IndexOf(a + t, c) == |a| + IndexOf(t, c)
    decreases |a|
  {
    if a != [] {
      assert (a + t)[1..] == a[1..] + t;
      IndexOfAppend(a[1..], t, c);
    } else {
      assert a + t == t;
    }
  }

  /** `s.split(sep, 2)` on text that holds `sep`: the text before the first
      separator, and the text between it and the next separator (or the end);
      whatever follows a second separator is not part of the result. */
  function SplitFirstTwo(s: string, sep: char): (pieces: (string, string))
    requires sep in s
    ensures sep !in pieces.0 && sep !in pieces.1
  {
    var i := IndexOf(s, sep);
    var rest := s[i + 1..];
    (s[..i], rest[..IndexOf(rest, sep)])
  }

  /** The two pieces are the first two pieces of the unlimited split. */
  lemma SplitFirstTwoPieces(s: string, sep: char)
    requires sep in s
    ensures SplitOn(s, sep)[0] == SplitFirstTwo(s, sep).0
    ensures SplitOn(s, sep)[1] == SplitFirstTwo(s, sep).1
  {
    var rest := s[IndexOf(s, sep) + 1..];
    SplitAtFirst(s, sep);
    FirstPiece(rest, sep);
  }

  /** Text holding a separator: what `split(sep, 2)` gives for
      `a sep b` followed by nothing or by another separator and more. */
  lemma SplitFirstTwoOf(a: string, b: string, tail: string, sep: char)
    requires sep !in a && sep !in b
    requires tail == [] || tail[0] == sep
    ensures sep in a + [sep] + b + tail
    ensures SplitFirstTwo(a + [sep] + b + tail, sep) == (a, b)
  {
    assert a + [sep] + b + tail == a + [sep] + (b + tail);
    SeparatorAfter(a, b + tail, sep);
    PieceBefore(b, tail, sep);
  }

  /** The first separator of `a sep rest` is the one after `a`. */
  lemma SeparatorAfter(a: string, rest: string, sep: char)
    requires sep !in a
    ensures var s := a + [sep] + rest;
      sep in s && IndexOf(s, sep) == |a| && s[..|a|] == a && s[|a| + 1..] == rest
  {
    var s := a + [sep] + rest;
    assert s == a + ([sep] + rest);
    assert s[|a|] == sep;
    IndexOfAppend(a, [sep] + rest, sep);
  }

  /** Text before the separator that starts `tail`, or before the end. */
  lemma PieceBefore(b: string, tail: string, sep: char)
    requires sep !in b
    requires tail == [] || tail[0] == sep
    ensures (b + tail)[..IndexOf(b + tail, sep)] == b
  {
    IndexOfAppend(b, tail, sep);
    assert (b + tail)[..|b|] == b;
  }

  /** The pieces are cut out of `s`, so they hold no character `s` lacks. */
  lemma SplitFirstTwoChars(s: string, sep: char, c: char)
    requires sep in s && c !in s
    ensures c !in SplitFirstTwo(s, sep).0 && c !in SplitFirstTwo(s, sep).1
  {
    var i := IndexOf(s, sep);
    var rest := s[i + 1..];
    assert forall k :: 0 <= k < i ==> s[..i][k] == s[k];
    assert forall k :: 0 <= k < |rest| ==> rest[k] == s[i + 1 + k];
  }

  predicate IsDigit(c: char) { '0' <= c <= '9' }

  predicate AllDigits(s: string) { forall i :: 0 <= i < |s| ==> IsDigit(s[i]) }

  /** The regular expression `/^-?\d+$/`: an optional minus sign and one
      or more ASCII digits, nothing else. */
  predicate IsIntShaped(s: string) {
    var digits := if |s| > 0 && s[0] == '-' then s[1..] else s;
    |digits| > 0 && AllDigits(digits)
  }

  function DigitValue(c: char): nat
    requires IsDigit(c)
  {
    c as int - '0' as int
  }

  /** Base-10 value of a digit string. */
  function DecimalValue(ds: string): nat
    requires AllDigits(ds)
  {
    if ds == [] then 0
    else DecimalValue(ds[..|ds| - 1]) * 10 + DigitValue(ds[|ds| - 1])
  }

  /** `parseInt(s, 10)` on an integer-shaped string. */
  function ParseInt(s: string): int
    requires IsIntShaped(s)
  {
    if s[0] == '-' then -(DecimalValue(s[1..]) as int) else DecimalValue(s)
  }

  function DigitChar(d: nat): (c: char)
    requires d < 10
    ensures IsDigit(c) && DigitValue(c) == d
  {
    ('0' as int + d) as char
  }

  /** Decimal digits of a natural number, without leading zeros. */
  function NatToString(n: nat): string
  {
    if n < 10 then [DigitChar(n)] else NatToString(n / 10) + [DigitChar(n % 10)]
  }

  /** The digits of `n` are digits, and read back as `n`. */
  lemma {:induction false} NatToStringDigits(n: nat)
    ensures |NatToString(n)| > 0 && AllDigits(NatToString(n))
    ensures DecimalValue(NatToString(n)) == n
    decreases n
  {
    if n >= 10 {
      NatToStringDigits(n / 10);
      var s := NatToString(n);
      assert s[..|s| - 1] == NatToString(n / 10);
    }
  }

  /** `String(n)` for an integer `n`. */
  function IntToString(n: int): string
  {
    if n < 0 then "-" + NatToString(-n) else NatToString(n)
  }

  /** `String(n)` is integer-shaped, and parses back to `n`. */
  lemma IntToStringParses(n: int)
    ensures IsIntShaped(IntToString(n))
    ensures ParseInt(IntToString(n)) == n
  {
    var s := IntToString(n);
    if n < 0 {
      NatToStringDigits(-n);
      assert s[1..] == NatToString(-n);
    } else {
      NatToStringDigits(n);
      assert IsDigit(s[0]);
    }
  }

  /** `String(n)` holds only digits and an optional leading minus sign. */
  lemma IntToStringChars(n: int)
    ensures |IntToString(n)| > 0
    ensures forall i :: 0 <= i < |IntToString(n)| ==> IsDigit(IntToString(n)[i]) || (i == 0 && IntToString(n)[i] == '-')
  {
    var s := IntToString(n);
    if n < 0 {
      NatToStringDigits(-n);
      assert forall i :: 1 <= i < |s| ==> s[i] == NatToString(-n)[i - 1];
    } else {
      NatToStringDigits(n);
    }
  }
}
