/**
 String helpers used by the name handling: the `" - "` separator that joins a
 fund name and its series, Python's `str.split(" - ")` and `" - ".join(...)`,
 substring tests, ASCII lower-casing and the decimal rendering of a year.
 */
module Text {
  import opened Wrappers

  /** The separator between fund and series in a display name or column name. */
  const Sep: string := " - "

  predicate SepAt(s: string, i: int) {
    0 <= i && i + |Sep| <= |s| && s[i..i + |Sep|] == Sep
  }

  /** Python's `" - " in s`. */
  predicate HasSep(s: string) {
    exists i :: 0 <= i <= |s| - |Sep| && SepAt(s, i)
  }

  /** Leftmost occurrence of the separator, as `str.find` locates it. */
  function FirstSep(s: string): (r: Option<nat>)
    ensures r.Some? ==> SepAt(s, r.value) && forall j :: 0 <= j < r.value ==> !SepAt(s, j)
    ensures r.None? <==> !HasSep(s)
    decreases |s|
  {
    if |s| < |Sep| then None
    else if s[..|Sep|] == Sep then Some(0)
    else
      match FirstSep(s[1..])
      case None =>
        assert forall j :: 1 <= j <= |s| - |Sep| ==> (SepAt(s, j) <==> SepAt(s[1..], j - 1)) by {
          forall j | 1 <= j <= |s| - |Sep| ensures SepAt(s, j) <==> SepAt(s[1..], j - 1) {
            SliceOfTail(s, j);
          }
        }
        None
      case Some(k) =>
        assert s[k + 1..k + 1 + |Sep|] == s[1..][k..k + |Sep|];
        assert SepAt(s, k + 1);
        assert !SepAt(s, 0) by {
          assert s[0..|Sep|] == s[..|Sep|];
        }
        assert forall j :: 1 <= j < k + 1 ==> !SepAt(s, j) by {
          forall j | 1 <= j < k + 1 ensures !SepAt(s, j) {
            SliceOfTail(s, j);
            assert !SepAt(s[1..], j - 1);
          }
        }
        Some(k + 1)
  }

  lemma SliceOfTail(s: string, j: int)
    requires 1 <= j <= |s| - |Sep|
    ensures s[1..][j - 1..j - 1 + |Sep|] == s[j..j + |Sep|]
  {
  }

  /** Python's `s.split(" - ")`: left to right, non-overlapping occurrences. */
  function Split(s: string): (parts: seq<string>)
    ensures |parts| >= 1
    decreases |s|
  {
    match FirstSep(s)
    case None => [s]
    case Some(i) => [s[..i]] + Split(s[i + |Sep|..])
  }

  /** Python's `" - ".join(parts)` for a non-empty list. */
  function Join(parts: seq<string>): string
    requires |parts| >= 1
  {
    if |parts| == 1 then parts[0] else parts[0] + Sep + Join(parts[1..])
  }

  /** Splitting and joining again gives back the original string. */
  lemma {:induction false} JoinSplit(s: string)
    ensures Join(Split(s)) == s
    decreases |s|
  {
    match FirstSep(s)
    case None =>
    case Some(i) =>
      var rest := s[i + |Sep|..];
      JoinSplit(rest);
      assert Split(s) == [s[..i]] + Split(rest);
      JoinCons(s[..i], Split(rest));
      CutAtSep(s, i);
  }

  /** Joining a list with one more element in front prepends that element and the separator. */
  lemma JoinCons(x: string, parts: seq<string>)
    requires |parts| >= 1
    ensures Join([x] + parts) == x + Sep + Join(parts)
  {
    assert ([x] + parts)[1..] == parts;
  }

  /** No piece produced by `Split` contains the separator. */
  lemma {:induction false} SplitPiecesHaveNoSep(s: string)
    ensures forall k :: 0 <= k < |Split(s)| ==> !HasSep(Split(s)[k])
    decreases |s|
  {
    match FirstSep(s)
    case None =>
    case Some(i) =>
      var rest := s[i + |Sep|..];
      SplitPiecesHaveNoSep(rest);
      var tail := Split(rest);
      assert Split(s) == [s[..i]] + tail;
      assert !HasSep(s[..i]) by { assert s[..i] == FirstPiece(s); }
      forall k | 0 <= k < |Split(s)| ensures !HasSep(Split(s)[k]) {
        if k > 0 {
          assert Split(s)[k] == tail[k - 1];
        }
      }
  }

  /**
   `s.split(" - ")[0]`: the separator-free prefix that ends at the first
   separator, or the whole string when there is none.
   */
  function FirstPiece(s: string): (p: string)
    ensures |p| <= |s| && s[..|p|] == p && !HasSep(p)
    ensures HasSep(s) ==> SepAt(s, |p|)
    ensures !HasSep(s) ==> p == s
  {
    match FirstSep(s)
    case None => s
    case Some(i) =>
      assert !HasSep(s[..i]) by {
        forall j | 0 <= j <= i - |Sep| ensures !SepAt(s[..i], j) {
          assert !SepAt(s, j);
          assert s[..i][j..j + |Sep|] == s[j..j + |Sep|];
        }
      }
      s[..i]
  }

  /** The separator that ends `FirstPiece` is the leftmost one. */
  lemma FirstPieceEndsAtFirstSep(s: string)
    ensures forall j :: 0 <= j < |FirstPiece(s)| ==> !SepAt(s, j)
  {
  }

  /** `FirstPiece` is the head of `Split`, and the rest of `Split` splits what follows the separator. */
  lemma FirstPieceIsSplitHead(s: string)
    ensures Split(s)[0] == FirstPiece(s)
    ensures HasSep(s) ==> |Split(s)| >= 2 && Split(s)[1..] == Split(s[|FirstPiece(s)| + |Sep|..])
    ensures !HasSep(s) ==> Split(s) == [s]
  {
  }

  /** A one-character piece other than a space, then the separator: the first cut falls after that character. */
  lemma SplitAfterChar(c: char, rest: string)
    requires c != ' '
    ensures FirstSep([c] + Sep + rest) == Some(1)
    ensures Split([c] + Sep + rest) == [[c]] + Split(rest)
  {
    var s := [c] + Sep + rest;
    assert s[..|Sep|] != Sep by { assert s[..|Sep|][0] == c; }
    assert s[1..][..|Sep|] == Sep;
    assert s[1 + |Sep|..] == rest;
    assert s[..1] == [c];
  }

  /** A string too short to hold the separator is one piece. */
  lemma SplitShort(s: string)
    requires |s| < |Sep|
    ensures FirstSep(s) == None && Split(s) == [s]
  {
  }

  /** A string is its text up to a separator, the separator, and the text after it. */
  lemma CutAtSep(s: string, i: int)
    requires SepAt(s, i)
    ensures s == s[..i] + Sep + s[i + |Sep|..]
  {
  }

  lemma PrefixThrough(s: string, a: string, b: string, c: string)
    requires s == a + b && |c| <= |b| && b[..|c|] == c
    ensures s[..|a| + |c|] == a + c
  {
    assert forall i :: 0 <= i < |a| + |c| ==> s[i] == (a + c)[i];
  }

  /** A separator inside a suffix is a separator of the whole string. */
  lemma SepInSuffix(s: string, off: nat, j: int)
    requires off <= |s|
    requires SepAt(s[off..], j)
    ensures SepAt(s, off + j)
  {
    assert s[off..][j..j + |Sep|] == s[off + j..off + j + |Sep|];
  }

  /** Joining a list with one more element appends the separator and that element. */
  lemma {:induction false} JoinSnoc(parts: seq<string>, x: string)
    requires |parts| >= 1
    ensures Join(parts + [x]) == Join(parts) + Sep + x
    decreases |parts|
  {
    if |parts| == 1 {
      assert (parts + [x])[1..] == [x];
    } else {
      assert (parts + [x])[1..] == parts[1..] + [x];
      JoinSnoc(parts[1..], x);
    }
  }

  /** Python's `w in s` for strings. */
  predicate Contains(s: string, w: string) {
    exists i :: 0 <= i <= |s| - |w| && OccursAt(s, w, i)
  }

  predicate OccursAt(s: string, w: string, i: int) {
    0 <= i && i + |w| <= |s| && s[i..i + |w|] == w
  }

  /** Python's `any(w in s for w in words)`. */
  predicate ContainsAny(s: string, words: seq<string>) {
    exists k :: 0 <= k < |words| && Contains(s, words[k])
  }

  function LowerChar(c: char): char {
    if 'A' <= c <= 'Z' then (c as int + 32) as char else c
  }

  /** `str.lower()` restricted to the ASCII letters. */
  function Lower(s: string): (r: string)
    ensures |r| == |s|
    ensures forall i :: 0 <= i < |s| ==> r[i] == LowerChar(s[i])
  {
    seq(|s|, i requires 0 <= i < |s| => LowerChar(s[i]))
  }

  // ---------------------------------------------------------------------------
  // Decimal rendering of integers (Python's `str(n)` / f-string of an int)
  // ---------------------------------------------------------------------------

  function DigitChar(d: int): char
    requires 0 <= d < 10
  {
    "0123456789"[d]
  }

  predicate IsDigit(c: char) {
    '0' <= c <= '9'
  }

  function NatToString(n: nat): (s: string)
    ensures |s| >= 1
    ensures forall i :: 0 <= i < |s| ==> IsDigit(s[i])
    ensures n >= 10 ==> s[0] != '0'
    decreases n
  {
    if n < 10 then [DigitChar(n)] else NatToString(n / 10) + [DigitChar(n % 10)]
  }

  function DigitValue(c: char): int
    requires IsDigit(c)
  {
    c as int - '0' as int
  }

  /** Reads back a string of decimal digits. */
  function ParseDigits(s: string): nat
    requires forall i :: 0 <= i < |s| ==> IsDigit(s[i])
  {
    if |s| == 0 then 0 else 10 * ParseDigits(s[..|s| - 1]) + DigitValue(s[|s| - 1])
  }

  lemma {:induction false} ParseNatToString(n: nat)
    ensures ParseDigits(NatToString(n)) == n
    decreases n
  {
    if n >= 10 {
      ParseNatToString(n / 10);
      var s := NatToString(n);
      assert s[..|s| - 1] == NatToString(n / 10);
    }
  }

  /** `str(n)` for any integer: a leading `-` for negatives. */
  function IntToString(n: int): (s: string)
    ensures |s| >= 1
  {
    if n < 0 then "-" + NatToString(-n) else NatToString(n)
  }

  lemma SignOfString(n: int)
    ensures IntToString(n)[0] == '-' <==> n < 0
  {
    if n >= 0 {
      assert IsDigit(NatToString(n)[0]);
    }
  }

  /** Different naturals are rendered as different strings. */
  lemma NatToStringInjective(a: nat, b: nat)
    requires NatToString(a) == NatToString(b)
    ensures a == b
  {
    ParseNatToString(a);
    ParseNatToString(b);
  }

  /** Different integers are rendered as different strings. */
  lemma IntToStringInjective(a: int, b: int)
    requires IntToString(a) == IntToString(b)
    ensures a == b
  {
    SignOfString(a);
    SignOfString(b);
    if a < 0 {
      var s := IntToString(a);
      assert s == "-" + NatToString(-a);
      assert s == "-" + NatToString(-b);
      assert NatToString(-a) == s[1..] == NatToString(-b);
      NatToStringInjective(-a, -b);
    } else {
      NatToStringInjective(a, b);
    }
  }

  // ---------------------------------------------------------------------------
  // Distinct strings
  // ---------------------------------------------------------------------------

  /** No string occurs twice. */
  predicate Distinct(xs: seq<string>) {
    forall i, j :: 0 <= i < j < |xs| ==> xs[i] != xs[j]
  }

  /** Two new, different strings inserted together into distinct strings keep them distinct. */
  lemma InsertTwoDistinct(fixed: seq<string>, x: string, y: string, at: nat, cols: seq<string>)
    requires Distinct(fixed) && x != y && x !in fixed && y !in fixed && at <= |fixed|
    requires cols == fixed[..at] + [x, y] + fixed[at..]
    ensures Distinct(cols)
  {
    forall i, j | 0 <= i < j < |cols| ensures cols[i] != cols[j] {
      if i < at {
        assert cols[i] == fixed[i];
      } else if i >= at + 2 {
        assert cols[i] == fixed[i - 2];
      }
      if j < at {
        assert cols[j] == fixed[j];
      } else if j >= at + 2 {
        assert cols[j] == fixed[j - 2];
      }
    }
  }

  /** Position of the first occurrence of `c` (`xs.index(c)`). */
  function FirstAt(xs: seq<string>, c: string): (k: nat)
    requires c in xs
    ensures k < |xs| && xs[k] == c
    ensures forall j :: 0 <= j < k ==> xs[j] != c
  {
    if xs[0] == c then 0
    else
      var k := FirstAt(xs[1..], c);
      assert forall j :: 1 <= j <= k ==> xs[j] == xs[1..][j - 1];
      k + 1
  }

  /** A string met in a prefix first occurs at the same position in the whole. */
  lemma FirstAtPrefix(xs: seq<string>, n: nat, c: string)
    requires n <= |xs| && c in xs[..n]
    ensures FirstAt(xs[..n], c) == FirstAt(xs, c)
  {
    var a := FirstAt(xs[..n], c);
    assert xs[..n][a] == xs[a];
  }

  /** The strings in first-occurrence order, each once (the keys of a dict filled in that order). */
  function Dedup(codes: seq<string>): (r: seq<string>)
    ensures Distinct(r)
    ensures forall c :: c in r <==> c in codes
  {
    if |codes| == 0 then []
    else
      var n := |codes| - 1;
      var rest := Dedup(codes[..n]);
      assert forall c :: c in codes <==> c in codes[..n] || c == codes[n];
      if codes[n] in rest then rest else rest + [codes[n]]
  }

  /** `Dedup` lists the strings in the order in which each first occurs. */
  lemma {:induction false} DedupOrder(codes: seq<string>)
    ensures forall i :: 0 <= i < |Dedup(codes)| ==> Dedup(codes)[i] in codes
    ensures forall i, j :: 0 <= i < j < |Dedup(codes)| ==> FirstAt(codes, Dedup(codes)[i]) < FirstAt(codes, Dedup(codes)[j])
  {
    if |codes| > 0 {
      var n := |codes| - 1;
      DedupOrder(codes[..n]);
      var pd := codes[..n];
      DedupStep(codes, pd, Dedup(pd), Dedup(codes));
    }
  }

  /** Adding the last string after the deduplicated prefix keeps first-occurrence order. */
  lemma DedupStep(codes: seq<string>, pd: seq<string>, rest: seq<string>, r: seq<string>)
    requires |codes| > 0 && pd == codes[..|codes| - 1]
    requires codes[|codes| - 1] in rest <==> codes[|codes| - 1] in pd
    requires forall i :: 0 <= i < |rest| ==> rest[i] in pd
    requires forall i, j :: 0 <= i < j < |rest| ==> FirstAt(pd, rest[i]) < FirstAt(pd, rest[j])
    requires r == if codes[|codes| - 1] in rest then rest else rest + [codes[|codes| - 1]]
    ensures forall i :: 0 <= i < |r| ==> r[i] in codes
    ensures forall i, j :: 0 <= i < j < |r| ==> FirstAt(codes, r[i]) < FirstAt(codes, r[j])
  {
    var n := |codes| - 1;
    forall i | 0 <= i < |rest| ensures rest[i] in codes && FirstAt(codes, rest[i]) == FirstAt(pd, rest[i]) < n {
      FirstAtPrefix(codes, n, rest[i]);
    }
    if codes[n] !in rest {
      forall j | 0 <= j < n ensures codes[j] != codes[n] {
        assert pd[j] == codes[j];
      }
      assert FirstAt(codes, codes[n]) == n;
      forall i, j | 0 <= i < j < |r| ensures FirstAt(codes, r[i]) < FirstAt(codes, r[j]) {
        assert r[i] == rest[i];
        if j < |rest| {
          assert r[j] == rest[j];
        } else {
          assert r[j] == codes[n];
        }
      }
    }
  }

  /** Deduplicating strings that are already distinct changes nothing. */
  lemma {:induction false} DedupOfDistinct(xs: seq<string>)
    requires Distinct(xs)
    ensures Dedup(xs) == xs
  {
    if |xs| > 0 {
      var n := |xs| - 1;
      DedupOfDistinct(xs[..n]);
      assert xs[n] !in xs[..n];
      assert xs[..n] + [xs[n]] == xs;
    }
  }

  /** Strings seen before add no new entries. */
  lemma {:induction false} DedupAppendSeen(xs: seq<string>, ys: seq<string>)
    requires forall y :: y in ys ==> y in xs
    ensures Dedup(xs + ys) == Dedup(xs)
  {
    if |ys| > 0 {
      var n := |ys| - 1;
      DedupAppendSeen(xs, ys[..n]);
      var zs := xs + ys;
      assert zs[..|zs| - 1] == xs + ys[..n] && zs[|zs| - 1] == ys[n];
      assert ys[n] in ys;
      assert ys[n] in Dedup(zs[..|zs| - 1]);
    } else {
      assert xs + ys == xs;
    }
  }

  /** Deduplicating a prefix first changes nothing: `Dedup` can be computed a piece at a time. */
  lemma {:induction false} DedupOfDedup(xs: seq<string>, ys: seq<string>)
    ensures Dedup(Dedup(xs) + ys) == Dedup(xs + ys)
  {
    if |ys| == 0 {
      assert Dedup(xs) + ys == Dedup(xs) && xs + ys == xs;
      DedupOfDistinct(Dedup(xs));
    } else {
      var n := |ys| - 1;
      DedupOfDedup(xs, ys[..n]);
      var zs := Dedup(xs) + ys;
      assert zs[..|zs| - 1] == Dedup(xs) + ys[..n] && zs[|zs| - 1] == ys[n];
      var ws := xs + ys;
      assert ws[..|ws| - 1] == xs + ys[..n] && ws[|ws| - 1] == ys[n];
    }
  }

  /** Deduplicating after a first piece, then after the rest, is deduplicating after both. */
  lemma DedupInTwo(xs: seq<string>, head: seq<string>, tail: seq<string>)
    ensures Dedup(Dedup(xs + head) + tail) == Dedup(xs + (head + tail))
  {
    DedupOfDedup(xs + head, tail);
    AppendAssoc(xs, head, tail);
  }

  /** Concatenation regrouped, stated once so that proofs about long concatenations stay small. */
  lemma AppendAssoc<T>(x: seq<T>, y: seq<T>, z: seq<T>)
    ensures x + y + z == x + (y + z)
  {
  }

  /** The empty sequence is a left unit of concatenation. */
  lemma EmptyAppend<T>(x: seq<T>)
    ensures [] + x == x
  {
  }

  /** The head and tail of a concatenation whose first part is not empty. */
  lemma ConsAppend<T>(a: seq<T>, b: seq<T>)
    requires |a| > 0
    ensures (a + b)[0] == a[0] && (a + b)[1..] == a[1..] + b
  {
  }

  /** The last element and the rest of a concatenation whose second part is not empty. */
  lemma AppendLast<T>(a: seq<T>, b: seq<T>)
    requires |b| > 0
    ensures (a + b)[..|a + b| - 1] == a + b[..|b| - 1] && (a + b)[|a + b| - 1] == b[|b| - 1]
  {
  }

  /** Appending one string to distinct strings adds it exactly when it is new. */
  lemma DedupSnoc(xs: seq<string>, x: string)
    requires Distinct(xs)
    ensures Dedup(xs + [x]) == if x in xs then xs else xs + [x]
  {
    DedupOfDistinct(xs);
    AppendLast(xs, [x]);
  }
}
