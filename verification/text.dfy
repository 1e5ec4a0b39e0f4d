/**
  The part of Python's `str` that the two scripts use, on Dafny strings:
  `strip`, `lstrip`, `split`, `join`, `startswith`, `in` and `lower`.
  Whitespace is the part of `str.isspace()` within ASCII (the non-ASCII
  whitespace is not modelled); `lower()` folds only the ASCII capitals.
 */
module Text {

  /**
    `c.isspace()` for the ASCII characters: space, `\t`, `\n`, `\v`, `\f`,
    `\r` and the separators `\x1c` to `\x1f`.
   */
  predicate IsSpace(c: char) {
    c == ' ' || '\t' <= c <= '\r' || '\U{1C}' <= c <= '\U{1F}'
  }

  predicate AllSpace(s: string) {
    forall i :: 0 <= i < |s| ==> IsSpace(s[i])
  }

  /** `s.lstrip()`: drops the leading whitespace. */
  function LStrip(s: string): (r: string)
    ensures |r| <= |s| && r == s[|s| - |r|..]
    ensures AllSpace(s[..|s| - |r|])
    ensures r == [] || !IsSpace(r[0])
  {
    if s != [] && IsSpace(s[0]) then
      var t := s[1..];
      var r := LStrip(t);
      assert t[|t| - |r|..] == s[|s| - |r|..];
      assert s[..|s| - |r|] == [s[0]] + t[..|t| - |r|];
      r
    else
      s
  }

  /** `s.rstrip()`: drops the trailing whitespace. */
  function RStrip(s: string): (r: string)
    ensures |r| <= |s| && r == s[..|r|]
    ensures AllSpace(s[|r|..])
    ensures r == [] || !IsSpace(r[|r| - 1])
  {
    if s != [] && IsSpace(s[|s| - 1]) then
      var r := RStrip(s[..|s| - 1]);
      assert s[|r|..] == s[..|s| - 1][|r|..] + [s[|s| - 1]];
      r
    else
      s
  }

  /** `s.strip()`: no whitespace left at either end (see `StripSurround` for what was removed). */
  function Strip(s: string): (r: string)
    ensures |r| <= |s|
    ensures r == [] || (!IsSpace(r[0]) && !IsSpace(r[|r| - 1]))
  {
    RStrip(LStrip(s))
  }

  /** `s` is whitespace, then `s.strip()`, then whitespace. */
  lemma {:induction false} StripSurround(s: string) returns (lead: string, trail: string)
    ensures AllSpace(lead) && AllSpace(trail)
    ensures s == lead + (Strip(s) + trail)
  {
    var l := LStrip(s);
    var m := RStrip(l);
    lead, trail := s[..|s| - |l|], l[|m|..];
    SplitAt(l, |m|);
    SplitAt(s, |s| - |l|);
  }

  /** A non-empty list is its head followed by its tail. */
  lemma HeadTail<T>(s: seq<T>)
    requires s != []
    ensures s == [s[0]] + s[1..]
  {
  }

  /** A text is its prefix followed by the rest. */
  lemma SplitAt(s: string, k: nat)
    requires k <= |s|
    ensures s == s[..k] + s[k..]
  {
  }

  /** Stripping a leading whitespace character first changes nothing. */
  lemma StripSpaceFront(c: char, s: string)
    requires IsSpace(c)
    ensures Strip([c] + s) == Strip(s)
  {
    assert ([c] + s)[1..] == s;
  }

  /** `LStrip` of an extended string: the new character joins the stripped text unless all was blank. */
  lemma {:induction false} LStripSnoc(s: string, c: char)
    requires !IsSpace(c)
    ensures LStrip(s + [c]) == LStrip(s) + [c]
  {
    if s != [] {
      assert (s + [c])[1..] == s[1..] + [c];
      if IsSpace(s[0]) {
        LStripSnoc(s[1..], c);
      }
    }
  }

  lemma {:induction false} LStripSnocSpace(s: string, c: char)
    requires IsSpace(c)
    ensures LStrip(s + [c]) == (if LStrip(s) == [] then [] else LStrip(s) + [c])
  {
    if s == [] {
    } else {
      assert (s + [c])[1..] == s[1..] + [c];
      if IsSpace(s[0]) {
        LStripSnocSpace(s[1..], c);
      }
    }
  }

  /** Stripping a trailing whitespace character first changes nothing. */
  lemma StripSpaceBack(s: string, c: char)
    requires IsSpace(c)
    ensures Strip(s + [c]) == Strip(s)
  {
    LStripSnocSpace(s, c);
    var l := LStrip(s);
    if l != [] {
      assert (l + [c])[..|l + [c]| - 1] == l;
    }
  }

  /** `s.lstrip(c)`: drops every leading occurrence of `c`. */
  function LStripChar(s: string, c: char): (r: string)
    ensures |r| <= |s| && r == s[|s| - |r|..]
    ensures forall i :: 0 <= i < |s| - |r| ==> s[i] == c
    ensures r == [] || r[0] != c
  {
    if s != [] && s[0] == c then LStripChar(s[1..], c) else s
  }

  /** `s.startswith(prefix)` */
  predicate StartsWith(s: string, prefix: string) {
    |prefix| <= |s| && s[..|prefix|] == prefix
  }

  /** Python's `sub in s`. */
  predicate Contains(s: string, sub: string)
  {
    StartsWith(s, sub) || (s != [] && Contains(s[1..], sub))
  }

  /** A substring stays a substring when text is added around it. */
  lemma {:induction false} ContainsWithin(a: string, s: string, b: string, sub: string)
    requires Contains(s, sub)
    ensures Contains(a + s + b, sub)
  {
    if a == [] {
      if StartsWith(s, sub) {
        assert (s + b)[..|sub|] == s[..|sub|];
      } else {
        ContainsWithin([], s[1..], b, sub);
        assert a + s + b == s + b;
        assert [] + s[1..] + b == (s + b)[1..];
      }
    } else {
      ContainsWithin(a[1..], s, b, sub);
      assert (a + s + b)[1..] == a[1..] + s + b;
    }
  }

  function LowerChar(c: char): char {
    if 'A' <= c <= 'Z' then (c as int + 32) as char else c
  }

  /** `s.lower()` on the ASCII letters. */
  function Lower(s: string): (r: string)
    ensures |r| == |s|
    ensures forall i :: 0 <= i < |r| ==> !('A' <= r[i] <= 'Z')
    ensures forall i :: 0 <= i < |s| && !('A' <= s[i] <= 'Z') ==> r[i] == s[i]
  {
    seq(|s|, i requires 0 <= i < |s| => LowerChar(s[i]))
  }

  /** Lowercasing goes character by character, so it distributes over concatenation. */
  lemma LowerConcat(a: string, b: string)
    ensures Lower(a + b) == Lower(a) + Lower(b)
  {
    assert forall i :: 0 <= i < |a + b| ==> Lower(a + b)[i] == (Lower(a) + Lower(b))[i];
  }

  /** `sep.join(parts)` */
  function Join(parts: seq<string>, sep: char): string
  {
    if parts == [] then ""
    else if |parts| == 1 then parts[0]
    else parts[0] + [sep] + Join(parts[1..], sep)
  }

  /** `s.split(sep)`: never empty, and no piece holds `sep`. */
  function Split(s: string, sep: char): (r: seq<string>)
    ensures |r| >= 1
    ensures forall i :: 0 <= i < |r| ==> sep !in r[i]
  {
    if s == [] then [""]
    else
      var rest := Split(s[1..], sep);
      if s[0] == sep then [""] + rest else [[s[0]] + rest[0]] + rest[1..]
  }

  /** Joining the pieces of `s.split(sep)` with `sep` gives back `s`. */
  lemma {:induction false} JoinSplit(s: string, sep: char)
    ensures Join(Split(s, sep), sep) == s
  {
    if s != [] {
      JoinSplit(s[1..], sep);
      var rest := Split(s[1..], sep);
      assert s == [s[0]] + s[1..];
      if s[0] != sep {
        var r := [[s[0]] + rest[0]] + rest[1..];
        assert r[1..] == rest[1..];
      }
    }
  }

  lemma {:induction false} SplitFree(p: string, sep: char)
    requires sep !in p
    ensures Split(p, sep) == [p]
  {
    if p != [] {
      SplitFree(p[1..], sep);
      assert [p[0]] + p[1..] == p;
    }
  }

  lemma {:induction false} SplitAfter(p: string, sep: char, t: string)
    requires sep !in p
    ensures Split(p + [sep] + t, sep) == [p] + Split(t, sep)
  {
    if p == [] {
      assert ([sep] + t)[1..] == t;
    } else {
      SplitAfter(p[1..], sep, t);
      assert (p + [sep] + t)[1..] == p[1..] + [sep] + t;
      assert [p[0]] + p[1..] == p;
    }
  }

  /** `s.split(sep)` undoes `sep.join(parts)` when no part holds `sep`. */
  lemma {:induction false} SplitJoin(parts: seq<string>, sep: char)
    requires |parts| >= 1
    requires forall i :: 0 <= i < |parts| ==> sep !in parts[i]
    ensures Split(Join(parts, sep), sep) == parts
  {
    if |parts| == 1 {
      SplitFree(parts[0], sep);
    } else {
      SplitJoin(parts[1..], sep);
      SplitAfter(parts[0], sep, Join(parts[1..], sep));
    }
  }

  /** A separator at the end of the text adds one empty piece. */
  lemma {:induction false} SplitSnocSep(x: string, sep: char)
    ensures Split(x + [sep], sep) == Split(x, sep) + [""]
  {
    if x == [] {
      assert x + [sep] == [sep] && [sep][1..] == [];
    } else {
      assert (x + [sep])[1..] == x[1..] + [sep];
      SplitSnocSep(x[1..], sep);
      var r' := Split(x[1..], sep);
      if x[0] != sep {
        assert (r' + [""])[1..] == r'[1..] + [""];
      }
    }
  }

  /** Any other character at the end of the text extends the last piece. */
  lemma {:induction false} SplitSnocOther(x: string, c: char, sep: char)
    requires c != sep
    ensures var r := Split(x, sep);
      Split(x + [c], sep) == r[..|r| - 1] + [r[|r| - 1] + [c]]
  {
    var r := Split(x, sep);
    if x == [] {
      assert x + [c] == [c] && [c][1..] == [];
      assert Split([c][1..], sep) == [""];
      assert [c] + "" == [c];
    } else {
      var y, x' := x[0], x[1..];
      assert (x + [c])[1..] == x' + [c];
      SplitSnocOther(x', c, sep);
      var r' := Split(x', sep);
      var big := Split(x' + [c], sep);
      var n := |r'|;
      if y == sep {
        assert r[..|r| - 1] == [""] + r'[..n - 1];
      } else if n == 1 {
        assert big == [r'[0] + [c]];
        assert r == [[y] + r'[0]];
        assert [y] + (r'[0] + [c]) == ([y] + r'[0]) + [c];
      } else {
        assert big[0] == r'[0];
        assert big[1..] == r'[1..n - 1] + [r'[n - 1] + [c]];
        assert r[..|r| - 1] == [[y] + r'[0]] + r'[1..n - 1];
      }
    }
  }

  /** `strip()` only removes characters: each character of the result is one of `s`. */
  lemma StripWithin(s: string)
    ensures forall c :: c in Strip(s) ==> c in s
  {
    var lead, trail := StripSurround(s);
    var r := Strip(s);
    forall c | c in r ensures c in s {
      var k :| 0 <= k < |r| && r[k] == c;
      assert s[|lead| + k] == c;
    }
  }

  /** Stripping a stripped string changes nothing. */
  lemma StripIdempotent(s: string)
    ensures Strip(Strip(s)) == Strip(s)
  {
    var r := Strip(s);
    if r != "" {
      assert LStrip(r) == r;
    }
  }

  /** A non-empty string with no whitespace at either end, as `strip()` leaves a non-blank line. */
  predicate Stripped(s: string) {
    s != "" && !IsSpace(s[0]) && !IsSpace(s[|s| - 1])
  }

  /** The items `f` gives for each element of `xs`, concatenated in order. */
  function FlatMap<T, U>(f: T -> seq<U>, xs: seq<T>): seq<U>
  {
    if xs == [] then [] else f(xs[0]) + FlatMap(f, xs[1..])
  }

  lemma FlatMapCons<T, U>(f: T -> seq<U>, x: T, xs: seq<T>)
    ensures FlatMap(f, [x] + xs) == f(x) + FlatMap(f, xs)
  {
    assert ([x] + xs)[1..] == xs;
  }

  lemma {:induction false} FlatMapSnoc<T, U>(f: T -> seq<U>, xs: seq<T>, x: T)
    ensures FlatMap(f, xs + [x]) == FlatMap(f, xs) + f(x)
  {
    if xs == [] {
      assert [] + [x] == [x];
      FlatMapCons(f, x, []);
    } else {
      assert xs + [x] == [xs[0]] + (xs[1..] + [x]);
      FlatMapSnoc(f, xs[1..], x);
      FlatMapCons(f, xs[0], xs[1..] + [x]);
      assert f(xs[0]) + (FlatMap(f, xs[1..]) + f(x)) == (f(xs[0]) + FlatMap(f, xs[1..])) + f(x);
    }
  }

  /** What the comprehension keeps of one line: its stripped text, or nothing when that is blank. */
  function KeepLine(line: string): (r: seq<string>)
    ensures r == [] || (|r| == 1 && Stripped(r[0]))
  {
    var t := Strip(line);
    if t != "" then [t] else []
  }

  /** `[t.strip() for t in lines if t.strip()]`: the stripped, non-blank items, in order. */
  function NonBlankStripped(lines: seq<string>): seq<string>
  {
    if lines == [] then [] else KeepLine(lines[0]) + NonBlankStripped(lines[1..])
  }

  lemma NonBlankStrippedCons(line: string, lines: seq<string>)
    ensures NonBlankStripped([line] + lines) == KeepLine(line) + NonBlankStripped(lines)
  {
    assert ([line] + lines)[1..] == lines;
  }

  lemma {:induction false} NonBlankStrippedIsFlatMap(lines: seq<string>)
    ensures NonBlankStripped(lines) == FlatMap(KeepLine, lines)
  {
    if lines != [] {
      NonBlankStrippedIsFlatMap(lines[1..]);
    }
  }

  lemma NonBlankStrippedSnoc(lines: seq<string>, line: string)
    ensures NonBlankStripped(lines + [line]) == NonBlankStripped(lines) + KeepLine(line)
  {
    NonBlankStrippedIsFlatMap(lines + [line]);
    NonBlankStrippedIsFlatMap(lines);
    FlatMapSnoc(KeepLine, lines, line);
  }

  /** Every item kept is non-empty and has no whitespace at either end. */
  lemma {:induction false} NonBlankStrippedAreStripped(lines: seq<string>)
    ensures forall i :: 0 <= i < |NonBlankStripped(lines)| ==> Stripped(NonBlankStripped(lines)[i])
  {
    if lines != [] {
      var rest := lines[1..];
      NonBlankStrippedAreStripped(rest);
      var kept, others := KeepLine(lines[0]), NonBlankStripped(rest);
      var r := NonBlankStripped(lines);
      assert r == kept + others;
      if kept == [] {
        assert r == others;
      } else {
        forall i | 0 <= i < |r| ensures Stripped(r[i]) {
          if i > 0 {
            assert r[i] == others[i - 1];
          }
        }
      }
    }
  }

  /** A string without whitespace at its ends is its own `strip()`. */
  lemma StripUnpadded(t: string)
    requires Stripped(t)
    ensures Strip(t) == t
  {
    assert LStrip(t) == t;
  }

  lemma {:induction false} NonBlankStrippedKeeps(items: seq<string>)
    requires forall i :: 0 <= i < |items| ==> Stripped(items[i])
    ensures NonBlankStripped(items) == items
  {
    if items != [] {
      var head, rest := items[0], items[1..];
      StripUnpadded(head);
      assert KeepLine(head) == [head];
      assert forall i :: 0 <= i < |rest| ==> Stripped(rest[i]) by {
        forall i | 0 <= i < |rest| ensures Stripped(rest[i]) {
          assert rest[i] == items[i + 1];
        }
      }
      NonBlankStrippedKeeps(rest);
      assert items == [head] + rest;
      NonBlankStrippedCons(head, rest);
    }
  }
}
