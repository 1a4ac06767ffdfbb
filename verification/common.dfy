/** Shared vocabulary of the model: optional values, results, the error objects
    the server code throws, and the handful of string operations the TypeScript
    code relies on (`trim`, `startsWith`, `includes`, `split`, case mapping,
    decimal rendering of integers). */
module Common {

  datatype Option<+T> = None | Some(value: T) {
    function GetOr(default: T): T {
      match this
      case Some(v) => v
      case None => default
    }
  }

  datatype Result<+T, +E> = Success(value: T) | Failure(error: E)

  /** The `name` of a thrown error: only `AbortError` is ever distinguished. */
  datatype ErrorName = AbortError | OtherError

  /** A thrown JavaScript `Error`, reduced to what the code inspects. */
  datatype Error = Error(name: ErrorName, message: string)

  function Fail(message: string): Error {
    Error(OtherError, message)
  }

  /** The messages undici uses when the server closes a streamed response;
      the code treats them as a normal end of stream. */
  predicate ClosedByPeer(e: Error) {
    Contains(e.message, "terminated") || Contains(e.message, "other side closed")
  }

  // ---------------------------------------------------------------------------
  // Strings

  predicate StartsWith(s: string, prefix: string) {
    |prefix| <= |s| && s[..|prefix|] == prefix
  }

  /** `s.includes(part)` */
  predicate Contains(s: string, part: string) {
    exists i :: 0 <= i <= |s| && StartsWith(s[i..], part)
  }

  /** Characters removed by ECMAScript `String.prototype.trim`: WhiteSpace and
      LineTerminator code points. */
  predicate IsWhitespace(c: char) {
    || c == ' ' || c == '\t' || c == '\n' || c == '\r'
    || c == '\U{000B}' || c == '\U{000C}' || c == '\U{00A0}' || c == '\U{1680}'
    || ('\U{2000}' <= c <= '\U{200A}')
    || c == '\U{2028}' || c == '\U{2029}' || c == '\U{202F}' || c == '\U{205F}'
    || c == '\U{3000}' || c == '\U{FEFF}'
  }

  predicate Blank(s: string) {
    forall i :: 0 <= i < |s| ==> IsWhitespace(s[i])
  }

  /** Number of whitespace characters at the front of `s`. */
  function LeadingBlanks(s: string): (n: nat)
    ensures n <= |s|
    ensures forall i :: 0 <= i < n ==> IsWhitespace(s[i])
    ensures n == |s| || !IsWhitespace(s[n])
  {
    if |s| > 0 && IsWhitespace(s[0]) then
      var n := 1 + LeadingBlanks(s[1..]);
      assert forall i :: 1 <= i < n ==> s[i] == s[1..][i - 1];
      n
    else 0
  }

  /** Number of whitespace characters at the end of `s`. */
  function TrailingBlanks(s: string): (n: nat)
    ensures n <= |s|
    ensures forall i :: |s| - n <= i < |s| ==> IsWhitespace(s[i])
    ensures n == |s| || !IsWhitespace(s[|s| - n - 1])
  {
    if |s| > 0 && IsWhitespace(s[|s| - 1]) then
      var n := 1 + TrailingBlanks(s[..|s| - 1]);
      assert forall i :: |s| - n <= i < |s| - 1 ==> s[i] == s[..|s| - 1][i];
      n
    else 0
  }

  /** Number of whitespace characters `trim` removes at the front. */
  function TrimOffset(s: string): (n: nat)
    ensures n <= |s|
  {
    LeadingBlanks(s)
  }

  /** `s.trim()`: `s` without its leading and trailing whitespace. */
  function Trim(s: string): (r: string)
    ensures TrimOffset(s) + |r| <= |s| && r == s[TrimOffset(s)..TrimOffset(s) + |r|]
    ensures forall i :: 0 <= i < TrimOffset(s) ==> IsWhitespace(s[i])
    ensures forall i :: TrimOffset(s) + |r| <= i < |s| ==> IsWhitespace(s[i])
    ensures r == [] || (!IsWhitespace(r[0]) && !IsWhitespace(r[|r| - 1]))
    ensures r == [] <==> Blank(s)
  {
    TrimFacts(s);
    s[LeadingBlanks(s)..|s| - TrailingBlanks(s[LeadingBlanks(s)..])]
  }

  lemma TrimFacts(s: string)
    ensures var a := LeadingBlanks(s);
      var r := s[a..|s| - TrailingBlanks(s[a..])];
      && (forall i :: a + |r| <= i < |s| ==> IsWhitespace(s[i]))
      && (r == [] || (!IsWhitespace(r[0]) && !IsWhitespace(r[|r| - 1])))
      && (r == [] <==> Blank(s))
  {
    TrimTail(s);
    TrimEnds(s);
    TrimEmpty(s);
  }

  lemma TrimTail(s: string)
    ensures var a := LeadingBlanks(s);
      forall i :: a + |s[a..|s| - TrailingBlanks(s[a..])]| <= i < |s| ==> IsWhitespace(s[i])
  {
    var a := LeadingBlanks(s);
    var t := s[a..];
    var n := TrailingBlanks(t);
    forall i | a + (|t| - n) <= i < |s| ensures IsWhitespace(s[i]) {
      assert s[i] == t[i - a];
    }
  }

  lemma TrimEnds(s: string)
    ensures var a := LeadingBlanks(s);
      var r := s[a..|s| - TrailingBlanks(s[a..])];
      r == [] || (!IsWhitespace(r[0]) && !IsWhitespace(r[|r| - 1]))
  {
    var a := LeadingBlanks(s);
    var t := s[a..];
    var n := TrailingBlanks(t);
    var r := s[a..|s| - n];
    if r != [] {
      assert a < |s| && n < |t|;
      assert !IsWhitespace(s[a]);
      assert !IsWhitespace(t[|t| - n - 1]);
      assert r[0] == s[a];
      assert r[|r| - 1] == t[|t| - n - 1];
    }
  }

  lemma TrimEmpty(s: string)
    ensures var a := LeadingBlanks(s);
      s[a..|s| - TrailingBlanks(s[a..])] == [] <==> Blank(s)
  {
    var a := LeadingBlanks(s);
    var t := s[a..];
    var n := TrailingBlanks(t);
    if a < |s| {
      assert t[0] == s[a];
      assert !IsWhitespace(t[0]);
      assert n < |t|;
    }
  }

  lemma {:induction false} LeadingBlanksUnique(s: string, k: nat)
    requires k <= |s|
    requires forall i :: 0 <= i < k ==> IsWhitespace(s[i])
    requires k == |s| || !IsWhitespace(s[k])
    ensures LeadingBlanks(s) == k
  {
    if k > 0 {
      assert forall i :: 0 <= i < k - 1 ==> s[1..][i] == s[i + 1];
      LeadingBlanksUnique(s[1..], k - 1);
    }
  }

  lemma {:induction false} TrailingBlanksUnique(s: string, k: nat)
    requires k <= |s|
    requires forall i :: |s| - k <= i < |s| ==> IsWhitespace(s[i])
    requires k == |s| || !IsWhitespace(s[|s| - k - 1])
    ensures TrailingBlanks(s) == k
  {
    if k > 0 {
      var s' := s[..|s| - 1];
      assert forall i :: |s'| - (k - 1) <= i < |s'| ==> s'[i] == s[i];
      TrailingBlanksUnique(s', k - 1);
    }
  }

  /** `Trim` is determined by any split into blank margins around a core that
      has no whitespace at its ends. */
  lemma TrimUnique(a: string, t: string, b: string)
    requires Blank(a) && Blank(b)
    requires t == [] || (!IsWhitespace(t[0]) && !IsWhitespace(t[|t| - 1]))
    ensures Trim(a + t + b) == t
  {
    var s := a + t + b;
    if t == [] {
      assert forall i :: 0 <= i < |s| ==> s[i] == (if i < |a| then a[i] else b[i - |a|]);
      assert Blank(s);
    } else {
      assert forall i :: 0 <= i < |a| ==> s[i] == a[i];
      assert s[|a|] == t[0];
      LeadingBlanksUnique(s, |a|);
      var u := s[|a|..];
      assert u == t + b;
      assert forall i :: |t| <= i < |u| ==> u[i] == b[i - |t|];
      assert u[|t| - 1] == t[|t| - 1];
      TrailingBlanksUnique(u, |b|);
      assert s[|a|..|s| - |b|] == t;
    }
  }

  /** Trimming is idempotent. */
  lemma TrimTrim(s: string)
    ensures Trim(Trim(s)) == Trim(s)
  {
    TrimUnique([], Trim(s), []);
    assert [] + Trim(s) + [] == Trim(s);
  }

  /** Truthiness of a JavaScript string (`if (s)`). */
  predicate Truthy(s: string) {
    s != []
  }

  /** `.filter(Boolean)` over strings: the non-empty ones, in order. */
  function KeepTruthy(xs: seq<string>): (r: seq<string>)
    ensures |r| <= |xs|
    ensures forall k :: 0 <= k < |r| ==> Truthy(r[k]) && r[k] in xs
    ensures forall k :: 0 <= k < |xs| && Truthy(xs[k]) ==> xs[k] in r
  {
    if xs == [] then []
    else
      var rest := KeepTruthy(xs[1..]);
      var r := (if Truthy(xs[0]) then [xs[0]] else []) + rest;
      assert forall k :: 1 <= k < |xs| ==> xs[k] == xs[1..][k - 1];
      assert forall x :: x in rest ==> x in r;
      r
  }

  /** `.filter(Boolean)` distributes over concatenation: what survives keeps
      its order and its multiplicity. */
  lemma {:induction false} KeepTruthyAppend(a: seq<string>, b: seq<string>)
    ensures KeepTruthy(a + b) == KeepTruthy(a) + KeepTruthy(b)
  {
    if a == [] {
      assert a + b == b;
    } else {
      assert (a + b)[1..] == a[1..] + b;
      KeepTruthyAppend(a[1..], b);
    }
  }

  /** One string survives exactly when it is non-empty. */
  lemma KeepTruthySingleton(x: string)
    ensures KeepTruthy([x]) == if Truthy(x) then [x] else []
  {
    assert [x][1..] == [];
  }

  /** Truthiness of an optional string: present and non-empty. */
  predicate Given(x: Option<string>) {
    x.Some? && Truthy(x.value)
  }

  /** `s || fallback` on strings. */
  function OrElse(s: string, fallback: string): string {
    if Truthy(s) then s else fallback
  }

  function LowerChar(c: char): char {
    if 'A' <= c <= 'Z' then (c as int + 32) as char else c
  }

  function UpperChar(c: char): char {
    if 'a' <= c <= 'z' then (c as int - 32) as char else c
  }

  /** `s.toLowerCase()`, restricted to the ASCII letters. */
  function Lower(s: string): (r: string)
    ensures |r| == |s|
    ensures forall i :: 0 <= i < |s| ==> r[i] == LowerChar(s[i])
  {
    if s == [] then [] else [LowerChar(s[0])] + Lower(s[1..])
  }

  /** `s.toUpperCase()`, restricted to the ASCII letters. */
  function Upper(s: string): (r: string)
    ensures |r| == |s|
    ensures forall i :: 0 <= i < |s| ==> r[i] == UpperChar(s[i])
  {
    if s == [] then [] else [UpperChar(s[0])] + Upper(s[1..])
  }

  /** `s.split(sep)` for a one-character separator. */
  function Split(s: string, sep: char): (r: seq<string>)
    ensures |r| >= 1
  {
    if s == [] then [[]]
    else if s[0] == sep then [[]] + Split(s[1..], sep)
    else
      var rest := Split(s[1..], sep);
      [[s[0]] + rest[0]] + rest[1..]
  }

  /** `parts.join(sep)`, the inverse of `Split`. */
  function Join(parts: seq<string>, sep: char): string
    requires |parts| >= 1
  {
    if |parts| == 1 then parts[0] else parts[0] + [sep] + Join(parts[1..], sep)
  }

  /** `s.indexOf(c)`: the position of the first `c`, if any. */
  function IndexOf(s: string, c: char): (r: Option<nat>)
    ensures r.None? ==> c !in s
    ensures r.Some? ==> r.value < |s| && s[r.value] == c && c !in s[..r.value]
  {
    if s == [] then None
    else if s[0] == c then Some(0)
    else
      match IndexOf(s[1..], c)
      case None => None
      case Some(i) =>
        assert s[..i + 1] == [s[0]] + s[1..][..i];
        Some(i + 1)
  }

  function Last<T>(s: seq<T>): T
    requires |s| >= 1
  {
    s[|s| - 1]
  }

  function AllButLast<T>(s: seq<T>): seq<T>
    requires |s| >= 1
  {
    s[..|s| - 1]
  }

  /** Every piece `Split` returns is free of the separator, and joining the
      pieces back gives the original string. */
  lemma SplitJoin(s: string, sep: char)
    ensures Join(Split(s, sep), sep) == s
    ensures forall k :: 0 <= k < |Split(s, sep)| ==> sep !in Split(s, sep)[k]
  {
    JoinSplit(s, sep);
    SplitPieces(s, sep);
  }

  lemma {:induction false} JoinSplit(s: string, sep: char)
    ensures Join(Split(s, sep), sep) == s
  {
    if s == [] {
    } else if s[0] == sep {
      JoinSplit(s[1..], sep);
      assert s == [sep] + s[1..];
    } else {
      JoinSplit(s[1..], sep);
      var rest := Split(s[1..], sep);
      var r := Split(s, sep);
      assert r[0] == [s[0]] + rest[0];
      assert r[1..] == rest[1..];
      assert s == [s[0]] + s[1..];
      if |rest| > 1 {
        assert Join(r, sep) == r[0] + [sep] + Join(rest[1..], sep);
        assert Join(rest, sep) == rest[0] + [sep] + Join(rest[1..], sep);
      }
    }
  }

  lemma {:induction false} SplitPieces(s: string, sep: char)
    ensures forall k :: 0 <= k < |Split(s, sep)| ==> sep !in Split(s, sep)[k]
  {
    if s != [] {
      SplitPieces(s[1..], sep);
      var rest := Split(s[1..], sep);
      var r := Split(s, sep);
      if s[0] == sep {
        assert r == [[]] + rest;
        forall k | 0 <= k < |r| ensures sep !in r[k] {
          if k > 0 { assert r[k] == rest[k - 1]; }
        }
      } else {
        assert r[0] == [s[0]] + rest[0];
        forall k | 0 <= k < |r| ensures sep !in r[k] {
          if k > 0 { assert r[k] == rest[k]; }
        }
      }
    }
  }

  lemma {:induction false} SplitNoSeparator(s: string, sep: char)
    requires sep !in s
    ensures Split(s, sep) == [s]
  {
    if s != [] {
      assert sep !in s[1..] by {
        forall i | 0 <= i < |s[1..]| ensures s[1..][i] != sep {
          assert s[1..][i] == s[i + 1];
        }
      }
      SplitNoSeparator(s[1..], sep);
      assert s == [s[0]] + s[1..];
    }
  }

  /** Two separator-free strings joined by one separator split back apart. */
  lemma {:induction false} SplitPair(a: string, b: string, sep: char)
    requires sep !in a && sep !in b
    ensures Split(a + [sep] + b, sep) == [a, b]
  {
    if a == [] {
      assert a + [sep] + b == [sep] + b;
      SplitCons(sep, b, sep);
      SplitNoSeparator(b, sep);
    } else {
      var a' := a[1..];
      assert sep !in a' by {
        forall i | 0 <= i < |a'| ensures a'[i] != sep {
          assert a'[i] == a[i + 1];
        }
      }
      SplitPair(a', b, sep);
      assert a + [sep] + b == [a[0]] + (a' + [sep] + b);
      SplitCons(a[0], a' + [sep] + b, sep);
      assert a == [a[0]] + a';
    }
  }

  /** A separator-free head followed by a separator is the first piece. */
  lemma {:induction false} SplitAtFirst(a: string, b: string, sep: char)
    requires sep !in a
    ensures Split(a + [sep] + b, sep) == [a] + Split(b, sep)
  {
    if a == [] {
      assert a + [sep] + b == [sep] + b;
      SplitCons(sep, b, sep);
    } else {
      var a' := a[1..];
      assert sep !in a' by {
        forall i | 0 <= i < |a'| ensures a'[i] != sep {
          assert a'[i] == a[i + 1];
        }
      }
      SplitAtFirst(a', b, sep);
      assert a + [sep] + b == [a[0]] + (a' + [sep] + b);
      SplitCons(a[0], a' + [sep] + b, sep);
      assert a == [a[0]] + a';
    }
  }

  lemma LowerIdempotent(s: string)
    ensures Lower(Lower(s)) == Lower(s)
  {
  }

  /** Splitting `x + y`: every complete piece of `x` is a piece of the whole,
      and the last (unterminated) piece of `x` is glued to the front of `y`.
      This is what makes a line buffer independent of read boundaries. */
  lemma {:induction false} SplitAppend(x: string, y: string, sep: char)
    ensures Split(x + y, sep)
         == AllButLast(Split(x, sep)) + Split(Last(Split(x, sep)) + y, sep)
  {
    if x == [] {
      assert x + y == y;
    } else {
      var x' := x[1..];
      assert x + y == [x[0]] + (x' + y);
      assert x == [x[0]] + x';
      SplitAppend(x', y, sep);
      SplitCons(x[0], x' + y, sep);
      SplitCons(x[0], x', sep);
      if x[0] == sep {
        SplitAppendSeparator(Split(x', sep), Split(Last(Split(x', sep)) + y, sep));
      } else if |Split(x', sep)| == 1 {
        SplitJoin(x', sep);
        assert Split(x', sep)[0] == x';
        assert Last(Split(x, sep)) == x;
        assert AllButLast(Split(x, sep)) == [];
      } else {
        SplitAppendStep(x[0], Split(x', sep), Split(Last(Split(x', sep)) + y, sep));
      }
    }
  }

  lemma SplitAppendSeparator(px: seq<string>, tail: seq<string>)
    requires |px| >= 1
    ensures [[]] + (AllButLast(px) + tail) == AllButLast([[]] + px) + tail
    ensures Last([[]] + px) == Last(px)
  {
    assert AllButLast([[]] + px) == [[]] + AllButLast(px);
  }

  /** One step of `Split` on a string with a known first character. */
  lemma SplitCons(c: char, s: string, sep: char)
    ensures c == sep ==> Split([c] + s, sep) == [[]] + Split(s, sep)
    ensures c != sep ==> Split([c] + s, sep) == [[c] + Split(s, sep)[0]] + Split(s, sep)[1..]
  {
    assert ([c] + s)[1..] == s;
  }

  lemma SplitAppendStep(c: char, px: seq<string>, tail: seq<string>)
    requires |px| >= 2
    ensures [[c] + (AllButLast(px) + tail)[0]] + (AllButLast(px) + tail)[1..]
         == AllButLast([[c] + px[0]] + px[1..]) + tail
  {
    var pxy := AllButLast(px) + tail;
    assert pxy[0] == px[0];
    assert pxy[1..] == AllButLast(px)[1..] + tail;
    assert AllButLast([[c] + px[0]] + px[1..]) == [[c] + px[0]] + AllButLast(px)[1..];
  }

  function Concat(parts: seq<string>): string {
    if parts == [] then [] else parts[0] + Concat(parts[1..])
  }

  lemma {:induction false} ConcatAppend(a: seq<string>, b: seq<string>)
    ensures Concat(a + b) == Concat(a) + Concat(b)
  {
    if a == [] {
      assert a + b == b;
    } else {
      assert (a + b)[1..] == a[1..] + b;
      ConcatAppend(a[1..], b);
    }
  }

  lemma ConcatSingle(s: string)
    ensures Concat([s]) == s
  {
    assert [s][1..] == [];
  }

  function DigitChar(d: nat): char
    requires d < 10
  {
    ('0' as int + d) as char
  }

  /** Decimal rendering of a natural number (`String(n)`). */
  function NatToString(n: nat): (r: string)
    ensures |r| >= 1
    ensures forall i :: 0 <= i < |r| ==> '0' <= r[i] <= '9'
  {
    if n < 10 then [DigitChar(n)] else NatToString(n / 10) + [DigitChar(n % 10)]
  }

  /** Decimal rendering of an integer (`String(n)`, `${n}`). */
  function IntToString(n: int): string {
    if n < 0 then "-" + NatToString(-n) else NatToString(n)
  }
}
