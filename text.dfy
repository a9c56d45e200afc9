/**
 * The pieces of Python's `str` that the corpus pipeline relies on, written out
 * over `seq<char>`: `isspace`/`strip`, `split(sep)`, `splitlines()`, `sep.join`,
 * substring `in`, `lower()`, decimal formatting of an `int` and left padding;
 * and `max`/`min` of three counts.
 */
module Text {

  /** `c.isspace()` in Python 3: the characters of Unicode bidirectional class
      WS, B or S, or general category Zs. */
  predicate IsSpace(c: char) {
    c == ' ' || ('\t' <= c <= '\r') || ('\U{1c}' <= c <= '\U{1f}')
    || c == '\U{85}' || c == '\U{a0}' || c == '\U{1680}'
    || ('\U{2000}' <= c <= '\U{200a}') || c == '\U{2028}' || c == '\U{2029}'
    || c == '\U{202f}' || c == '\U{205f}' || c == '\U{3000}'
  }

  /** The line boundaries `str.splitlines()` recognises (`\r\n` counts as one). */
  predicate IsLineBreak(c: char) {
    ('\n' <= c <= '\r') || ('\U{1c}' <= c <= '\U{1e}')
    || c == '\U{85}' || c == '\U{2028}' || c == '\U{2029}'
  }

  predicate AllSpace(s: string) {
    forall i :: 0 <= i < |s| ==> IsSpace(s[i])
  }

  /** A string that `strip()` leaves alone: empty, or no whitespace at either end. */
  predicate IsStripped(s: string) {
    s == [] || (!IsSpace(s[0]) && !IsSpace(s[|s| - 1]))
  }

  function TrimLeft(s: string): (r: string)
    ensures |r| <= |s|
  {
    if s != [] && IsSpace(s[0]) then TrimLeft(s[1..]) else s
  }

  function TrimRight(s: string): (r: string)
    ensures |r| <= |s|
  {
    if s != [] && IsSpace(s[|s| - 1]) then TrimRight(s[..|s| - 1]) else s
  }

  /** `s.strip()`: no longer than `s`. */
  function Strip(s: string): (r: string)
    ensures |r| <= |s|
  {
    TrimRight(TrimLeft(s))
  }

  /** `lstrip()` leaves no whitespace at the front. */
  lemma {:induction false} TrimLeftStart(s: string)
    ensures TrimLeft(s) == [] || !IsSpace(TrimLeft(s)[0])
    decreases |s|
  {
    if s != [] && IsSpace(s[0]) {
      TrimLeftStart(s[1..]);
    }
  }

  /** `rstrip()` leaves no whitespace at the back. */
  lemma {:induction false} TrimRightEnd(s: string)
    ensures TrimRight(s) == [] || !IsSpace(TrimRight(s)[|TrimRight(s)| - 1])
    decreases |s|
  {
    if s != [] && IsSpace(s[|s| - 1]) {
      TrimRightEnd(s[..|s| - 1]);
    }
  }

  /** The result of `strip()` has whitespace at neither end. */
  lemma StripStripped(s: string)
    ensures IsStripped(Strip(s))
  {
    var l := TrimLeft(s);
    TrimLeftStart(s);
    TrimRightEnd(l);
    TrimRightPrefix(l);
  }

  /** `lstrip()` removes a run of whitespace at the front and nothing else. */
  lemma {:induction false} TrimLeftSuffix(s: string)
    ensures TrimLeft(s) == s[|s| - |TrimLeft(s)|..]
    ensures AllSpace(s[..|s| - |TrimLeft(s)|])
    decreases |s|
  {
    if s != [] && IsSpace(s[0]) {
      TrimLeftSuffix(s[1..]);
      var k := |s| - |TrimLeft(s)|;
      assert s[1..][|s| - 1 - |TrimLeft(s)|..] == s[k..];
      forall i | 0 <= i < k ensures IsSpace(s[..k][i]) {
        if i > 0 {
          assert s[..k][i] == s[1..][..k - 1][i - 1];
        } else {
          assert s[..k][0] == s[0];
        }
      }
    }
  }

  /** `rstrip()` removes a run of whitespace at the back and nothing else. */
  lemma {:induction false} TrimRightPrefix(s: string)
    ensures TrimRight(s) == s[..|TrimRight(s)|]
    ensures AllSpace(s[|TrimRight(s)|..])
    decreases |s|
  {
    if s != [] && IsSpace(s[|s| - 1]) {
      var t := s[..|s| - 1];
      TrimRightPrefix(t);
      var k := |TrimRight(s)|;
      assert t[..k] == s[..k];
      forall i | 0 <= i < |s| - k ensures IsSpace(s[k..][i]) {
        if k + i < |s| - 1 {
          assert s[k..][i] == t[k..][i];
        }
      }
    }
  }

  /** `s.strip()` is empty exactly when `s` is all whitespace. */
  lemma StripEmpty(s: string)
    ensures Strip(s) == [] <==> AllSpace(s)
  {
    var l := TrimLeft(s);
    TrimLeftSuffix(s);
    TrimLeftStart(s);
    TrimRightPrefix(l);
    if Strip(s) == [] {
      assert l[0..] == l;
      assert l == [];
      assert s[..|s|] == s;
    }
  }

  lemma {:induction false} TrimLeftOfStripped(s: string)
    requires s == [] || !IsSpace(s[0])
    ensures TrimLeft(s) == s
  {
  }

  lemma {:induction false} TrimRightOfStripped(s: string)
    requires s == [] || !IsSpace(s[|s| - 1])
    ensures TrimRight(s) == s
  {
  }

  /** `strip()` is idempotent: a stripped string is its own strip. */
  lemma {:induction false} StripIdempotent(s: string)
    requires IsStripped(s)
    ensures Strip(s) == s
  {
    TrimLeftOfStripped(s);
    TrimRightOfStripped(s);
  }

  lemma {:induction false} TrimLeftSnoc(s: string, c: char)
    requires IsSpace(c)
    ensures TrimLeft(s + [c]) == if TrimLeft(s) == [] then [] else TrimLeft(s) + [c]
    decreases |s|
  {
    var t := s + [c];
    assert t[0] == if s == [] then c else s[0];
    if s == [] {
      assert t[1..] == [];
      assert TrimLeft(t) == TrimLeft([]);
    } else if IsSpace(s[0]) {
      assert t[1..] == s[1..] + [c];
      assert TrimLeft(t) == TrimLeft(s[1..] + [c]);
      assert TrimLeft(s) == TrimLeft(s[1..]);
      TrimLeftSnoc(s[1..], c);
    } else {
      assert TrimLeft(t) == t;
      assert TrimLeft(s) == s;
    }
  }

  /** Trailing whitespace does not change `strip()`. */
  lemma {:induction false} StripSnocSpace(s: string, c: char)
    requires IsSpace(c)
    ensures Strip(s + [c]) == Strip(s)
  {
    TrimLeftSnoc(s, c);
    var l := TrimLeft(s);
    if l != [] {
      assert (l + [c])[..|l + [c]| - 1] == l;
    }
  }

  /** `sep.join(parts)`. */
  function Join(parts: seq<string>, sep: string): string
  {
    if |parts| == 0 then ""
    else if |parts| == 1 then parts[0]
    else parts[0] + sep + Join(parts[1..], sep)
  }

  lemma {:induction false} JoinCons(c: char, parts: seq<string>, sep: string)
    requires |parts| >= 1
    ensures Join([[c] + parts[0]] + parts[1..], sep) == [c] + Join(parts, sep)
  {
    var ps := [[c] + parts[0]] + parts[1..];
    assert ps[1..] == parts[1..];
  }

  /** Prepends a character to the first piece of a split. */
  function ConsFirst(c: char, pieces: seq<string>): seq<string>
    requires |pieces| >= 1
  {
    [[c] + pieces[0]] + pieces[1..]
  }

  /** `s.split(sep)` for a non-empty separator: scanning from the left, every
      non-overlapping occurrence of `sep` ends a piece. Joining the pieces
      with `sep` gives `s` back. */
  function SplitOn(s: string, sep: string): (pieces: seq<string>)
    requires |sep| > 0
    ensures |pieces| >= 1
    ensures Join(pieces, sep) == s
    decreases |s|
  {
    if |s| < |sep| then [s]
    else if sep <= s then
      var rest := SplitOn(s[|sep|..], sep);
      assert ([""] + rest)[1..] == rest;
      assert sep + s[|sep|..] == s;
      [""] + rest
    else
      var rest := SplitOn(s[1..], sep);
      JoinCons(s[0], rest, sep);
      assert [s[0]] + s[1..] == s;
      ConsFirst(s[0], rest)
  }

  /** No occurrence of `sep` starts inside `p`, not even one that runs on into a
      following `sep`. */
  predicate SepFree(p: string, sep: string) {
    forall i :: 0 <= i < |p| ==> !(sep <= (p + sep)[i..])
  }

  lemma {:induction false} SepFreeTail(p: string, sep: string)
    requires p != [] && SepFree(p, sep)
    ensures SepFree(p[1..], sep)
  {
    forall i | 0 <= i < |p[1..]| ensures !(sep <= (p[1..] + sep)[i..]) {
      assert (p[1..] + sep)[i..] == (p + sep)[i + 1..];
    }
  }

  lemma {:induction false} SplitOnSepFree(p: string, sep: string)
    requires |sep| > 0 && SepFree(p, sep)
    ensures SplitOn(p, sep) == [p]
    decreases |p|
  {
    if |p| >= |sep| {
      assert (p + sep)[0..][..|sep|] == p[..|sep|];
      assert !(sep <= p);
      SepFreeTail(p, sep);
      SplitOnSepFree(p[1..], sep);
      assert [p[0]] + p[1..] == p;
    }
  }

  lemma {:induction false} SplitOnPiece(p: string, sep: string, rest: string)
    requires |sep| > 0 && SepFree(p, sep)
    ensures SplitOn(p + sep + rest, sep) == [p] + SplitOn(rest, sep)
    decreases |p|
  {
    var s := p + sep + rest;
    if p == [] {
      assert s == sep + rest;
      assert sep <= s;
      assert s[|sep|..] == rest;
    } else {
      assert |s| >= |sep|;
      assert !(sep <= s) by {
        assert (p + sep)[0..] == p + sep;
        assert !(sep <= (p + sep)[0..]);
        assert s == (p + sep) + rest;
        assert s[..|sep|] == (p + sep)[..|sep|];
      }
      SepFreeTail(p, sep);
      SplitOnPiece(p[1..], sep, rest);
      assert s[1..] == p[1..] + sep + rest;
      var r := SplitOn(s[1..], sep);
      assert SplitOn(s, sep) == ConsFirst(s[0], r);
      assert r == [p[1..]] + SplitOn(rest, sep);
      assert [p[0]] + p[1..] == p;
    }
  }

  /** Splitting undoes joining when no piece can be mistaken for a separator. */
  lemma {:induction false} SplitOnJoin(ps: seq<string>, sep: string)
    requires |sep| > 0 && |ps| >= 1
    requires forall k :: 0 <= k < |ps| ==> SepFree(ps[k], sep)
    ensures SplitOn(Join(ps, sep), sep) == ps
    decreases |ps|
  {
    if |ps| == 1 {
      SplitOnSepFree(ps[0], sep);
    } else {
      SplitOnJoin(ps[1..], sep);
      SplitOnPiece(ps[0], sep, Join(ps[1..], sep));
      assert ps[0] + sep + Join(ps[1..], sep) == Join(ps, sep);
      assert [ps[0]] + ps[1..] == ps;
    }
  }

  /** `s.splitlines()`: every line boundary ends a line, `\r\n` is one boundary,
      and a boundary at the very end does not open an empty last line. */
  function Lines(s: string): (lines: seq<string>)
    ensures lines == [] <==> s == []
    decreases |s|
  {
    if s == [] then []
    else if IsLineBreak(s[0]) then
      var skip := if s[0] == '\r' && |s| > 1 && s[1] == '\n' then 2 else 1;
      [""] + Lines(s[skip..])
    else
      var rest := Lines(s[1..]);
      if rest == [] then [[s[0]]] else ConsFirst(s[0], rest)
  }

  predicate NoLineBreak(l: string) {
    forall i :: 0 <= i < |l| ==> !IsLineBreak(l[i])
  }

  /** A line without a boundary, then "\n": `splitlines()` yields that line first. */
  lemma {:induction false} LinesOfLine(l: string, rest: string)
    requires NoLineBreak(l)
    ensures Lines(l + "\n" + rest) == [l] + Lines(rest)
    decreases |l|
  {
    var s := l + "\n" + rest;
    if l == [] {
      assert s == "\n" + rest;
      assert s[1..] == rest;
    } else {
      assert s[0] == l[0];
      assert s[1..] == l[1..] + "\n" + rest;
      LinesOfLine(l[1..], rest);
      assert [l[0]] + l[1..] == l;
    }
  }

  /** A non-empty last line without a boundary is the one line `splitlines()` yields. */
  lemma {:induction false} LinesOfLastLine(l: string)
    requires l != [] && NoLineBreak(l)
    ensures Lines(l) == [l]
    decreases |l|
  {
    assert !IsLineBreak(l[0]);
    if |l| == 1 {
      assert l[1..] == [];
      assert Lines(l[1..]) == [];
      assert [l[0]] == l;
    } else {
      LinesOfLastLine(l[1..]);
      assert Lines(l) == ConsFirst(l[0], [l[1..]]);
      assert [l[0]] + l[1..] == l;
    }
  }

  /** Lines without boundaries joined with "\n", the last one not empty:
      `splitlines()` gives them back. */
  lemma {:induction false} LinesOfJoin(ls: seq<string>)
    requires |ls| >= 1 && ls[|ls| - 1] != []
    requires forall k :: 0 <= k < |ls| ==> NoLineBreak(ls[k])
    ensures Lines(Join(ls, "\n")) == ls
    decreases |ls|
  {
    if |ls| == 1 {
      LinesOfLastLine(ls[0]);
    } else {
      var tail := ls[1..];
      assert tail[|tail| - 1] == ls[|ls| - 1];
      LinesOfJoin(tail);
      LinesOfLine(ls[0], Join(tail, "\n"));
      assert [ls[0]] + tail == ls;
    }
  }

  /** The text less one trailing `\n`, if it has one. */
  function ChopNewline(s: string): string
  {
    if s != [] && s[|s| - 1] == '\n' then s[..|s| - 1] else s
  }

  lemma ChopNewlineCons(c: char, t: string)
    requires t != []
    ensures ChopNewline([c] + t) == [c] + ChopNewline(t)
  {
    var s := [c] + t;
    assert s[|s| - 1] == t[|t| - 1];
    if t[|t| - 1] == '\n' {
      assert s[..|s| - 1] == [c] + t[..|t| - 1];
    }
  }

  lemma StripChopNewline(s: string)
    ensures Strip(ChopNewline(s)) == Strip(s)
  {
    if s != [] && s[|s| - 1] == '\n' {
      var t := s[..|s| - 1];
      assert t + ['\n'] == s;
      StripSnocSpace(t, '\n');
    }
  }

  /** On text whose only line boundary is `\n`, joining the lines with `\n`
      gives the text back, less one trailing `\n`. */
  lemma {:induction false} LinesJoin(s: string)
    requires forall i :: 0 <= i < |s| && IsLineBreak(s[i]) ==> s[i] == '\n'
    ensures Join(Lines(s), "\n") == ChopNewline(s)
    decreases |s|
  {
    if s != [] {
      var t := s[1..];
      assert s == [s[0]] + t;
      assert forall i :: 0 <= i < |t| && IsLineBreak(t[i]) ==> t[i] == '\n' by {
        forall i | 0 <= i < |t| && IsLineBreak(t[i]) ensures t[i] == '\n' {
          assert t[i] == s[i + 1];
        }
      }
      LinesJoin(t);
      var rest := Lines(t);
      if t == [] {
        assert rest == [];
        if IsLineBreak(s[0]) {
          assert Lines(s) == [""];
        } else {
          assert Lines(s) == [[s[0]]];
        }
      } else {
        ChopNewlineCons(s[0], t);
        assert rest != [];
        if IsLineBreak(s[0]) {
          assert Lines(s) == [""] + rest;
          assert ([""] + rest)[1..] == rest;
          assert Join([""] + rest, "\n") == "" + "\n" + Join(rest, "\n");
        } else {
          assert Lines(s) == ConsFirst(s[0], rest);
          JoinCons(s[0], rest, "\n");
        }
      }
    }
  }

  /** A prefix is the one before it plus its last element. */
  lemma PrefixSnoc<T>(s: seq<T>, k: nat)
    requires 0 < k <= |s|
    ensures s[..k] == s[..k - 1] + [s[k - 1]]
  {
  }

  lemma FullPrefix<T>(s: seq<T>)
    ensures s[..|s|] == s
  {
  }

  /** Python's substring test `sub in s`. */
  predicate Contains(s: string, sub: string)
    decreases |s|
  {
    sub <= s || (s != [] && Contains(s[1..], sub))
  }

  /** `c.lower()` on the ASCII letters; every other character is its own lower case. */
  function LowerChar(c: char): (r: char)
    ensures 'A' <= c <= 'Z' ==> r as int == c as int + 32
    ensures !('A' <= c <= 'Z') ==> r == c
  {
    if 'A' <= c <= 'Z' then (c as int + 32) as char else c
  }

  /** `s.lower()`, character by character. */
  function Lower(s: string): (r: string)
    ensures |r| == |s|
    ensures forall i :: 0 <= i < |s| ==> r[i] == LowerChar(s[i])
  {
    seq(|s|, i requires 0 <= i < |s| => LowerChar(s[i]))
  }

  predicate IsDigit(c: char) {
    '0' <= c <= '9'
  }

  /** The number a string of decimal digits denotes. */
  function DigitsValue(s: string): nat
    requires forall i :: 0 <= i < |s| ==> IsDigit(s[i])
    decreases |s|
  {
    if s == [] then 0
    else
      assert IsDigit(s[|s| - 1]);
      DigitsValue(s[..|s| - 1]) * 10 + (s[|s| - 1] as int - '0' as int)
  }

  /** `str(n)` (and the `{n}` of an f-string) for a natural number: a non-empty
      run of digits whose value is `n`. */
  function Decimal(n: nat): (r: string)
    ensures |r| >= 1
    ensures forall i :: 0 <= i < |r| ==> IsDigit(r[i])
    ensures DigitsValue(r) == n
    decreases n
  {
    var d := [('0' as int + n % 10) as char];
    if n < 10 then d
    else
      var r := Decimal(n / 10) + d;
      assert r[..|r| - 1] == Decimal(n / 10);
      r
  }

  function Repeat(c: char, k: nat): (r: string)
    ensures |r| == k
    ensures forall i :: 0 <= i < k ==> r[i] == c
  {
    seq(k, i => c)
  }

  /** `f"{s:{fill}>{width}}"`: `s` right-aligned in a field of `width`
      characters, padded on the left with `fill`; never shortened. */
  function PadLeft(s: string, width: nat, fill: char): (r: string)
    ensures |r| == if |s| >= width then |s| else width
  {
    if |s| >= width then s else Repeat(fill, width - |s|) + s
  }

  /** The padded string ends with `s` and everything before it is `fill`. */
  lemma PadLeftShape(s: string, width: nat, fill: char)
    ensures var r := PadLeft(s, width, fill);
            && r[|r| - |s|..] == s
            && forall i :: 0 <= i < |r| - |s| ==> r[i] == fill
  {
  }

  /** Leading zeros do not change the value of a digit string. */
  lemma {:induction false} LeadingZeros(k: nat, s: string)
    requires forall i :: 0 <= i < |s| ==> IsDigit(s[i])
    ensures DigitsValue(Repeat('0', k) + s) == DigitsValue(s)
    decreases |s|, k
  {
    var z := Repeat('0', k);
    if s == [] {
      assert z + s == z;
      if k > 0 {
        assert z[..k - 1] == Repeat('0', k - 1);
        LeadingZeros(k - 1, []);
        assert Repeat('0', k - 1) + [] == Repeat('0', k - 1);
      }
    } else {
      assert (z + s)[..|z + s| - 1] == z + s[..|s| - 1];
      LeadingZeros(k, s[..|s| - 1]);
    }
  }

  /** Zero-padding a decimal numeral loses nothing: it still denotes `n`. */
  lemma {:induction false} PaddedDecimalValue(n: nat, width: nat)
    ensures forall i :: 0 <= i < |PadLeft(Decimal(n), width, '0')| ==> IsDigit(PadLeft(Decimal(n), width, '0')[i])
    ensures DigitsValue(PadLeft(Decimal(n), width, '0')) == n
  {
    var d := Decimal(n);
    if |d| < width {
      LeadingZeros(width - |d|, d);
    }
  }

  function Max3(a: nat, b: nat, c: nat): (m: nat)
    ensures m >= a && m >= b && m >= c
    ensures m == a || m == b || m == c
  {
    if a >= b && a >= c then a else if b >= c then b else c
  }

  function Min3(a: nat, b: nat, c: nat): (m: nat)
    ensures m <= a && m <= b && m <= c
    ensures m == a || m == b || m == c
  {
    if a <= b && a <= c then a else if b <= c then b else c
  }
}
