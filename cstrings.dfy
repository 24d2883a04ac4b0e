/** The C library routines that the server and the client apply to their
    character buffers: `strstr(p, "\r\n")`, `sscanf(p, "%ld", &n)`,
    `sprintf(p, "%d\r\n", n)` and `memmove`.  Buffers are modelled as
    sequences of characters that hold no NUL, so a C string starting at some
    position is the rest of the sequence. */
module CStrings {

  datatype Option<T> = None | Some(value: T)

  const CRLF: seq<char> := "\r\n"

  /** A line terminator starts at position p of s. */
  predicate IsCrlfAt(s: seq<char>, p: int) {
    0 <= p && p + 1 < |s| && s[p] == '\r' && s[p + 1] == '\n'
  }

  predicate HasCrlf(s: seq<char>) {
    exists p :: 0 <= p < |s| && IsCrlfAt(s, p)
  }

  /** `strstr(s + from, "\r\n")`: the first terminator at or after `from`. */
  function FindCrlf(s: seq<char>, from: nat): (r: Option<nat>)
    ensures r.Some? ==> from <= r.value && IsCrlfAt(s, r.value)
    ensures r.Some? ==> forall p :: from <= p < r.value ==> !IsCrlfAt(s, p)
    ensures r.None? ==> forall p :: from <= p ==> !IsCrlfAt(s, p)
    decreases |s| - from
  {
    if from + 1 >= |s| then None
    else if s[from] == '\r' && s[from + 1] == '\n' then Some(from)
    else FindCrlf(s, from + 1)
  }

  /** The terminator that FindCrlf reports is the first one: any terminator
      with none before it is the one found. */
  lemma FirstCrlfIsFound(s: seq<char>, from: nat, e: nat)
    requires from <= e && IsCrlfAt(s, e)
    requires forall p :: from <= p < e ==> !IsCrlfAt(s, p)
    ensures FindCrlf(s, from) == Some(e)
  {
  }

  // Sequence algebra, proved apart from the scanning functions.

  lemma AppendEmpty<T>(x: seq<T>)
    ensures [] + x == x && x + [] == x
  {
  }

  lemma AppendAssoc<T>(a: seq<T>, b: seq<T>, c: seq<T>)
    ensures (a + b) + c == a + (b + c)
  {
  }

  /** Joins lines, each followed by CRLF. */
  function JoinLines(lines: seq<seq<char>>): seq<char>
  {
    if lines == [] then [] else lines[0] + CRLF + JoinLines(lines[1..])
  }

  /** The complete lines of a buffer, and the unterminated rest. */
  datatype Split = Split(lines: seq<seq<char>>, tail: seq<char>)

  predicate NoCrlfIn(lines: seq<seq<char>>) {
    forall i :: 0 <= i < |lines| ==> !HasCrlf(lines[i])
  }

  lemma JoinCons(line: seq<char>, lines: seq<seq<char>>)
    ensures JoinLines([line] + lines) == line + CRLF + JoinLines(lines)
  {
    assert ([line] + lines)[1..] == lines;
  }

  /** The lines of s from position `from` on: `strstr` resumed after each
      terminator it found, until it finds none. */
  function SplitFrom(s: seq<char>, from: nat): Split
    requires from <= |s|
    decreases |s| - from
  {
    match FindCrlf(s, from)
    case None => Split([], s[from..])
    case Some(e) =>
      var r := SplitFrom(s, e + 2);
      Split([s[from..e]] + r.lines, r.tail)
  }

  /** Repeated `strstr` from the start of a buffer: the CRLF-terminated lines
      in order, and what follows the last terminator. */
  function SplitLines(s: seq<char>): Split {
    SplitFrom(s, 0)
  }

  /** A suffix that starts with a terminated line. */
  lemma LineThenRest(s: seq<char>, from: nat, e: nat)
    requires from <= e && IsCrlfAt(s, e)
    ensures s[from..] == s[from..e] + CRLF + s[e + 2..]
  {
  }

  /** The split reassembles the scanned text. */
  lemma {:induction false} SplitFromJoins(s: seq<char>, from: nat)
    requires from <= |s|
    ensures JoinLines(SplitFrom(s, from).lines) + SplitFrom(s, from).tail == s[from..]
    decreases |s| - from
  {
    var found := FindCrlf(s, from);
    if found.None? {
      JoinsLast(s, from);
    } else {
      SplitFromJoins(s, found.value + 2);
      JoinsStep(s, from, found.value);
    }
  }

  /** The base case of SplitFromJoins: no terminator is left. */
  lemma JoinsLast(s: seq<char>, from: nat)
    requires from <= |s| && FindCrlf(s, from).None?
    ensures JoinLines(SplitFrom(s, from).lines) + SplitFrom(s, from).tail == s[from..]
  {
    assert SplitFrom(s, from) == Split([], s[from..]);
    AppendEmpty(s[from..]);
  }

  /** One line of SplitFromJoins: the line, its terminator, then the rest. */
  lemma JoinsStep(s: seq<char>, from: nat, e: nat)
    requires from <= |s| && FindCrlf(s, from) == Some(e)
    requires e + 2 <= |s|
    requires JoinLines(SplitFrom(s, e + 2).lines) + SplitFrom(s, e + 2).tail == s[e + 2..]
    ensures JoinLines(SplitFrom(s, from).lines) + SplitFrom(s, from).tail == s[from..]
  {
    var r := SplitFrom(s, e + 2);
    var line := s[from..e];
    SplitFromStep(s, from, e);
    JoinCons(line, r.lines);
    AppendAssoc(line + CRLF, JoinLines(r.lines), r.tail);
    LineThenRest(s, from, e);
  }

  /** No line of the split, nor its tail, holds a terminator. */
  lemma {:induction false} SplitFromClean(s: seq<char>, from: nat)
    requires from <= |s|
    ensures NoCrlfIn(SplitFrom(s, from).lines) && !HasCrlf(SplitFrom(s, from).tail)
    decreases |s| - from
  {
    var found := FindCrlf(s, from);
    if found.None? {
      CleanLastLine(s, from);
    } else {
      SplitFromClean(s, found.value + 2);
      CleanLineStep(s, from, found.value);
    }
  }

  /** The base case of SplitFromClean: the tail is the rest, free of
      terminators. */
  lemma CleanLastLine(s: seq<char>, from: nat)
    requires from <= |s| && FindCrlf(s, from).None?
    ensures NoCrlfIn(SplitFrom(s, from).lines) && !HasCrlf(SplitFrom(s, from).tail)
  {
    forall p | 0 <= p < |s| - from ensures !IsCrlfAt(s[from..], p) {
      assert IsCrlfAt(s[from..], p) == IsCrlfAt(s, from + p);
    }
  }

  /** One line of SplitFromClean: the line ends at the first terminator. */
  lemma CleanLineStep(s: seq<char>, from: nat, e: nat)
    requires from <= |s| && FindCrlf(s, from) == Some(e) && e + 2 <= |s|
    requires NoCrlfIn(SplitFrom(s, e + 2).lines) && !HasCrlf(SplitFrom(s, e + 2).tail)
    ensures NoCrlfIn(SplitFrom(s, from).lines) && !HasCrlf(SplitFrom(s, from).tail)
  {
    var r := SplitFrom(s, e + 2);
    var line := s[from..e];
    SplitFromStep(s, from, e);
    forall p | 0 <= p < |line| ensures !IsCrlfAt(line, p) {
      assert IsCrlfAt(line, p) ==> IsCrlfAt(s, from + p);
    }
    assert forall i :: 1 <= i < |[line] + r.lines| ==> ([line] + r.lines)[i] == r.lines[i - 1];
  }

  /** The same for the whole buffer. */
  lemma SplitLinesParts(s: seq<char>)
    ensures var r := SplitLines(s);
      JoinLines(r.lines) + r.tail == s && NoCrlfIn(r.lines) && !HasCrlf(r.tail)
  {
    SplitFromJoins(s, 0);
    SplitFromClean(s, 0);
    assert s[0..] == s;
  }

  /** A buffer has no complete line exactly when it holds no terminator. */
  lemma NoLinesIffNoCrlf(s: seq<char>)
    ensures SplitLines(s).lines == [] <==> !HasCrlf(s)
  {
    if FindCrlf(s, 0).Some? {
      assert IsCrlfAt(s, FindCrlf(s, 0).value);
    }
  }

  /** The first terminator at or after the end of `p` in
      `p + line + CRLF + more` is the one after `line` when `line` holds
      none. */
  lemma CrlfAfterLine(p: seq<char>, line: seq<char>, more: seq<char>)
    requires !HasCrlf(line)
    ensures FindCrlf(p + line + CRLF + more, |p|) == Some(|p| + |line|)
  {
    var s := p + line + CRLF + more;
    assert IsCrlfAt(s, |p| + |line|);
    forall q | |p| <= q < |p| + |line| ensures !IsCrlfAt(s, q) {
      if q + 1 < |p| + |line| {
        assert IsCrlfAt(s, q) == IsCrlfAt(line, q - |p|);
      } else {
        assert s[q + 1] == '\r';
      }
    }
    FirstCrlfIsFound(s, |p|, |p| + |line|);
  }

  /** Splitting undoes joining, after any prefix: lines free of CRLF
      followed by a tail free of CRLF are recovered exactly. */
  lemma {:induction false} SplitJoinAfter(p: seq<char>, lines: seq<seq<char>>, tail: seq<char>)
    requires NoCrlfIn(lines) && !HasCrlf(tail)
    ensures SplitFrom(p + JoinLines(lines) + tail, |p|) == Split(lines, tail)
    decreases |lines|
  {
    if lines == [] {
      SplitTailAfter(p, tail);
    } else {
      var p' := p + lines[0] + CRLF;
      SplitJoinAfter(p', lines[1..], tail);
      SplitLineAfter(p, lines, tail);
    }
  }

  /** The base case of SplitJoinAfter: only the tail follows the prefix. */
  lemma SplitTailAfter(p: seq<char>, tail: seq<char>)
    requires !HasCrlf(tail)
    ensures SplitFrom(p + JoinLines([]) + tail, |p|) == Split([], tail)
  {
    var s := p + JoinLines([]) + tail;
    assert s == p + tail;
    forall q | |p| <= q ensures !IsCrlfAt(s, q) {
      assert IsCrlfAt(s, q) == IsCrlfAt(tail, q - |p|);
    }
    assert FindCrlf(s, |p|).None?;
    assert s[|p|..] == tail;
  }

  /** The step of SplitJoinAfter: the first line ends at the first
      terminator after the prefix, and the scan goes on after it. */
  lemma SplitLineAfter(p: seq<char>, lines: seq<seq<char>>, tail: seq<char>)
    requires lines != [] && NoCrlfIn(lines)
    requires var p' := p + lines[0] + CRLF;
      SplitFrom(p' + JoinLines(lines[1..]) + tail, |p'|) == Split(lines[1..], tail)
    ensures SplitFrom(p + JoinLines(lines) + tail, |p|) == Split(lines, tail)
  {
    var p' := p + lines[0] + CRLF;
    FirstLineAfter(p, lines, tail);
    RestAfterLine(p, lines, tail);
    SplitLineAt(p + JoinLines(lines) + tail, |p|, |p| + |lines[0]|, lines[0], lines[1..], tail,
                p' + JoinLines(lines[1..]) + tail, |p'|);
    assert [lines[0]] + lines[1..] == lines;
  }

  /** After the prefix and the first line with its terminator come the
      other lines. */
  lemma RestAfterLine(p: seq<char>, lines: seq<seq<char>>, tail: seq<char>)
    requires lines != []
    ensures p + JoinLines(lines) + tail == (p + lines[0] + CRLF) + JoinLines(lines[1..]) + tail
  {
    LayoutAfter(p, lines, tail);
  }

  /** The first terminator after the prefix ends the first line. */
  lemma FirstLineAfter(p: seq<char>, lines: seq<seq<char>>, tail: seq<char>)
    requires lines != [] && NoCrlfIn(lines)
    ensures var s := p + JoinLines(lines) + tail;
      FindCrlf(s, |p|) == Some(|p| + |lines[0]|) && s[|p|..|p| + |lines[0]|] == lines[0]
  {
    assert !HasCrlf(lines[0]);
    LayoutAfter(p, lines, tail);
    CrlfAfterLine(p, lines[0], JoinLines(lines[1..]) + tail);
  }

  /** The line found at `from` heads the split from `from`; the split
      after it is given for a sequence equal to s. */
  lemma SplitLineAt(s: seq<char>, from: nat, e: nat, line: seq<char>, rest: seq<seq<char>>, tail: seq<char>,
                    s': seq<char>, at: nat)
    requires from <= |s| && FindCrlf(s, from) == Some(e) && s[from..e] == line
    requires s' == s && at == e + 2 && at <= |s'| && SplitFrom(s', at) == Split(rest, tail)
    ensures SplitFrom(s, from) == Split([line] + rest, tail)
  {
    SplitFromStep(s, from, e);
  }

  /** Where the first line and the rest sit in `p + JoinLines(lines) + tail`. */
  lemma LayoutAfter(p: seq<char>, lines: seq<seq<char>>, tail: seq<char>)
    requires lines != []
    ensures var s, line, rest := p + JoinLines(lines) + tail, lines[0], lines[1..];
      s == p + line + CRLF + (JoinLines(rest) + tail) &&
      s == (p + line + CRLF) + JoinLines(rest) + tail &&
      s[|p|..|p| + |line|] == line
  {
    var line, rest := lines[0], lines[1..];
    assert JoinLines(lines) == line + CRLF + JoinLines(rest);
  }

  /** One step of SplitFrom, when a terminator is found. */
  lemma SplitFromStep(s: seq<char>, from: nat, e: nat)
    requires from <= |s| && FindCrlf(s, from) == Some(e)
    ensures e + 2 <= |s|
    ensures SplitFrom(s, from) == Split([s[from..e]] + SplitFrom(s, e + 2).lines, SplitFrom(s, e + 2).tail)
  {
  }

  /** Splitting undoes joining. */
  lemma SplitJoin(lines: seq<seq<char>>, tail: seq<char>)
    requires NoCrlfIn(lines) && !HasCrlf(tail)
    ensures SplitLines(JoinLines(lines) + tail) == Split(lines, tail)
  {
    AppendEmpty(JoinLines(lines));
    SplitJoinAfter([], lines, tail);
  }

  /** A scan resumed at `begin`, where line i of the split starts: the next
      terminator ends line i, and the scan resumes after it at line i + 1. */
  lemma NextLine(s: seq<char>, begin: nat, lines: seq<seq<char>>, i: nat, tail: seq<char>, e: nat)
    requires begin <= |s| && i <= |lines| && SplitFrom(s, begin) == Split(lines[i..], tail)
    requires FindCrlf(s, begin) == Some(e)
    ensures i < |lines| && e + 2 <= |s| && lines[i] == s[begin..e]
    ensures SplitFrom(s, e + 2) == Split(lines[i + 1..], tail)
  {
    assert lines[i..][0] == lines[i];
    assert lines[i..][1..] == lines[i + 1..];
  }

  /** A scan resumed at `begin` that finds no terminator has passed every
      line; what is left is the tail. */
  lemma LastLine(s: seq<char>, begin: nat, lines: seq<seq<char>>, i: nat, tail: seq<char>)
    requires begin <= |s| && i <= |lines| && SplitFrom(s, begin) == Split(lines[i..], tail)
    requires FindCrlf(s, begin).None?
    ensures i == |lines| && tail == s[begin..]
  {
  }

  // ---------------------------------------------------------------------
  // sscanf(s, "%ld", &n)

  predicate IsDigit(c: char) {
    '0' <= c <= '9'
  }

  /** `isspace` in the C locale. */
  predicate IsSpace(c: char) {
    c == ' ' || c == '\t' || c == '\n' || c == '\U{B}' || c == '\U{C}' || c == '\r'
  }

  predicate AllDigits(ds: seq<char>) {
    forall i :: 0 <= i < |ds| ==> IsDigit(ds[i])
  }

  /** The value of a decimal digit (0 for any other character). */
  function DigitValue(c: char): (d: nat)
    ensures d < 10
  {
    if IsDigit(c) then (c as int) - ('0' as int) else 0
  }

  /** The value of a run of decimal digits, most significant first. */
  function Decimal(ds: seq<char>): nat
    decreases |ds|
  {
    if ds == [] then 0 else 10 * Decimal(ds[..|ds| - 1]) + DigitValue(ds[|ds| - 1])
  }

  /** The end of the run of white space starting at i. */
  function SkipSpaces(s: seq<char>, i: nat): (j: nat)
    requires i <= |s|
    ensures i <= j <= |s|
    decreases |s| - i
  {
    if i < |s| && IsSpace(s[i]) then SkipSpaces(s, i + 1) else i
  }

  lemma {:induction false} SkipSpacesRun(s: seq<char>, i: nat)
    requires i <= |s|
    ensures forall p :: i <= p < SkipSpaces(s, i) ==> IsSpace(s[p])
    ensures SkipSpaces(s, i) < |s| ==> !IsSpace(s[SkipSpaces(s, i)])
    decreases |s| - i
  {
    if i < |s| && IsSpace(s[i]) {
      SkipSpacesRun(s, i + 1);
    }
  }

  /** The end of the run of digits starting at i. */
  function SkipDigits(s: seq<char>, i: nat): (j: nat)
    requires i <= |s|
    ensures i <= j <= |s|
    decreases |s| - i
  {
    if i < |s| && IsDigit(s[i]) then SkipDigits(s, i + 1) else i
  }

  lemma {:induction false} SkipDigitsRun(s: seq<char>, i: nat)
    requires i <= |s|
    ensures AllDigits(s[i..SkipDigits(s, i)])
    ensures SkipDigits(s, i) < |s| ==> !IsDigit(s[SkipDigits(s, i)])
    decreases |s| - i
  {
    if i < |s| && IsDigit(s[i]) {
      SkipDigitsRun(s, i + 1);
      assert forall p :: i + 1 <= p < SkipDigits(s, i) ==> IsDigit(s[p]) by {
        forall p | i + 1 <= p < SkipDigits(s, i) ensures IsDigit(s[p]) {
          assert s[i + 1..SkipDigits(s, i)][p - i - 1] == s[p];
        }
      }
    }
  }

  /** `sscanf(s, "%ld", &n) == 1` and the value stored in n: optional white
      space, an optional sign, at least one digit; what follows the digits is
      ignored.  The number is read as an unbounded integer: the overflow
      of `long` on longer digit strings is not modelled. */
  function ParseLong(s: seq<char>): (r: Option<int>)
  {
    var i := SkipSpaces(s, 0);
    var signed := i < |s| && (s[i] == '-' || s[i] == '+');
    var j := if signed then i + 1 else i;
    var k := SkipDigits(s, j);
    if k == j then None
    else
      var m: int := Decimal(s[j..k]);
      Some(if signed && s[i] == '-' then -m else m)
  }

  /** A line that `sscanf` reads a number from holds a digit. */
  lemma ParsedHasDigit(s: seq<char>)
    requires ParseLong(s).Some?
    ensures exists p :: 0 <= p < |s| && IsDigit(s[p])
  {
    var i := SkipSpaces(s, 0);
    var j := if i < |s| && (s[i] == '-' || s[i] == '+') then i + 1 else i;
    SkipDigitsRun(s, j);
    assert s[j..SkipDigits(s, j)][0] == s[j];
  }

  // ---------------------------------------------------------------------
  // sprintf(p, "%d", n)

  function DigitChar(d: nat): (c: char)
    requires d < 10
    ensures IsDigit(c) && DigitValue(c) == d
  {
    ('0' as int + d) as char
  }

  /** The decimal digits of m, without leading zeros. */
  function FormatNat(m: nat): (r: seq<char>)
    ensures 1 <= |r| && AllDigits(r)
    ensures r[0] == '0' <==> m == 0
    decreases m
  {
    if m < 10 then [DigitChar(m)] else FormatNat(m / 10) + [DigitChar(m % 10)]
  }

  /** `sprintf(p, "%d", n)`: a minus sign for negative n, then the digits. */
  function FormatInt(n: int): (r: seq<char>)
    ensures 1 <= |r| && !HasCrlf(r)
    ensures n >= 0 ==> r == FormatNat(n)
    ensures n < 0 ==> r == "-" + FormatNat(-n)
  {
    var r := if n < 0 then "-" + FormatNat(-n) else FormatNat(n);
    assert forall p :: 0 <= p < |r| ==> r[p] != '\r' by {
      forall p | 0 <= p < |r| ensures r[p] != '\r' {
        if n < 0 && p > 0 { assert r[p] == FormatNat(-n)[p - 1]; }
      }
    }
    r
  }

  /** Reading back the digits of m gives m. */
  lemma {:induction false} DecimalOfFormat(m: nat)
    ensures Decimal(FormatNat(m)) == m
    decreases m
  {
    if m >= 10 {
      var r := FormatNat(m);
      assert r[..|r| - 1] == FormatNat(m / 10);
      DecimalOfFormat(m / 10);
    }
  }

  function Pow10(k: nat): (p: nat)
    ensures p >= 1
  {
    if k == 0 then 1 else 10 * Pow10(k - 1)
  }

  /** A number below 10^k has at most k digits. */
  lemma {:induction false} FormatNatLength(m: nat, k: nat)
    requires 1 <= k && m < Pow10(k)
    ensures |FormatNat(m)| <= k
    decreases k
  {
    if m >= 10 {
      assert k >= 2;
      assert m / 10 < Pow10(k - 1);
      FormatNatLength(m / 10, k - 1);
    }
  }

  /** What `sprintf("%d")` prints, `sscanf("%ld")` reads back, also when the
      text is followed by something that is not a digit. */
  lemma ParseFormatted(n: int, rest: seq<char>)
    requires rest == [] || !IsDigit(rest[0])
    ensures ParseLong(FormatInt(n) + rest) == Some(n)
  {
    var s := FormatInt(n) + rest;
    var ds := FormatNat(if n < 0 then -n else n);
    var j := if n < 0 then 1 else 0;
    assert s[j..j + |ds|] == ds;
    assert !IsSpace(s[0]);
    assert SkipSpaces(s, 0) == 0;
    SkipDigitsOver(s, j, j + |ds|);
    DecimalOfFormat(if n < 0 then -n else n);
  }

  lemma {:induction false} SkipDigitsOver(s: seq<char>, j: nat, k: nat)
    requires j <= k <= |s|
    requires AllDigits(s[j..k])
    requires k < |s| ==> !IsDigit(s[k])
    ensures SkipDigits(s, j) == k
    decreases k - j
  {
    if j < k {
      assert s[j..k][0] == s[j];
      assert s[j + 1..k] == s[j..k][1..];
      SkipDigitsOver(s, j + 1, k);
    }
  }

  // ---------------------------------------------------------------------
  // memmove

  /** `memmove(b, b + src, n)` on a buffer value: the n bytes at src move to
      the front, the rest stays. */
  function MoveToFront(b: seq<char>, src: nat, n: nat): (r: seq<char>)
    requires src + n <= |b|
    ensures |r| == |b| && r[..n] == b[src..src + n] && r[n..] == b[n..]
  {
    b[src..src + n] + b[n..]
  }

  /** `memmove(a + dst, a + src, n)` on an array, copying forwards or
      backwards so that overlapping ranges are handled. */
  method MemMove(a: array<char>, dst: nat, src: nat, n: nat)
    requires dst + n <= a.Length && src + n <= a.Length
    modifies a
    ensures a[dst..dst + n] == old(a[src..src + n])
    ensures forall p :: 0 <= p < a.Length && !(dst <= p < dst + n) ==> a[p] == old(a[p])
  {
    ghost var orig := a[..];
    if dst <= src {
      var i := 0;
      while i < n
        invariant 0 <= i <= n
        invariant forall p :: dst <= p < dst + i ==> a[p] == orig[p - dst + src]
        invariant forall p :: 0 <= p < a.Length && !(dst <= p < dst + i) ==> a[p] == orig[p]
      {
        assert a[src + i] == orig[src + i];
        a[dst + i] := a[src + i];
        assert a[dst + i] == orig[src + i];
        i := i + 1;
      }
    } else {
      var i := n;
      while i > 0
        invariant 0 <= i <= n
        invariant forall p :: dst + i <= p < dst + n ==> a[p] == orig[p - dst + src]
        invariant forall p :: 0 <= p < a.Length && !(dst + i <= p < dst + n) ==> a[p] == orig[p]
      {
        assert a[src + i - 1] == orig[src + i - 1];
        a[dst + i - 1] := a[src + i - 1];
        assert a[dst + i - 1] == orig[src + i - 1];
        i := i - 1;
      }
    }
  }
}
