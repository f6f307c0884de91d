/** Values shared by every part of the chat system: optional values, results,
    JSON request values, and the string operations of JavaScript that the
    backend and the frontend rely on (`startsWith`, `trim`, `parseInt`, the
    decimal rendering of a number inside a template literal). */
module Values {

  datatype Option<+T> = None | Some(value: T)

  datatype Result<+T, +E> = Ok(value: T) | Err(error: E)

  /** A JSON value as it arrives in a request body or a handshake field.
      Numbers are integers in this model. */
  datatype Json = JNull | JBool(b: bool) | JNum(n: int) | JStr(s: string) | JArr(items: seq<Json>)

  /** `s.startsWith(prefix)` */
  predicate StartsWith(s: string, prefix: string) {
    |prefix| <= |s| && s[..|prefix|] == prefix
  }

  /** Sequence without repeated elements (the contents of a JavaScript `Set`). */
  predicate NoDuplicates<T(==)>(s: seq<T>) {
    forall i, j :: 0 <= i < j < |s| ==> s[i] != s[j]
  }

  /** `s.filter(x => x !== v)`: every occurrence of `v` removed, order kept. */
  function RemoveAll<T(==,!new)>(s: seq<T>, v: T): (r: seq<T>)
    ensures forall x :: x in r <==> x in s && x != v
    ensures |r| <= |s|
    ensures v !in s ==> r == s
  {
    if s == [] then []
    else if s[0] == v then RemoveAll(s[1..], v)
    else [s[0]] + RemoveAll(s[1..], v)
  }

  /** The tail of a duplicate-free sequence is duplicate-free and lacks the head. */
  lemma NoDuplicatesTail<T>(s: seq<T>)
    requires s != [] && NoDuplicates(s)
    ensures NoDuplicates(s[1..]) && s[0] !in s[1..]
  {
    var t := s[1..];
    forall i, j | 0 <= i < j < |t| ensures t[i] != t[j] {
      assert t[i] == s[i + 1] && t[j] == s[j + 1];
    }
    forall j | 0 <= j < |t| ensures t[j] != s[0] {
      assert t[j] == s[j + 1];
    }
  }

  lemma {:induction false} RemoveAllKeepsNoDuplicates<T(!new)>(s: seq<T>, v: T)
    requires NoDuplicates(s)
    ensures NoDuplicates(RemoveAll(s, v))
  {
    if s != [] {
      NoDuplicatesTail(s);
      RemoveAllKeepsNoDuplicates(s[1..], v);
    }
  }

  /** Removing the only occurrence of `v` from a duplicate-free sequence that
      has it at position `k` leaves the parts before and after `k`. */
  lemma {:induction false} RemoveAllAt<T(!new)>(s: seq<T>, k: nat)
    requires NoDuplicates(s) && k < |s|
    ensures RemoveAll(s, s[k]) == s[..k] + s[k + 1..]
  {
    var t := s[1..];
    NoDuplicatesTail(s);
    if k == 0 {
      assert RemoveAll(s, s[0]) == RemoveAll(t, s[0]);
    } else {
      assert t[k - 1] == s[k] && s[0] != s[k];
      RemoveAllAt(t, k - 1);
      assert RemoveAll(s, s[k]) == [s[0]] + (t[..k - 1] + t[k..]);
      Assoc([s[0]], t[..k - 1], t[k..]);
      assert s[..k] == [s[0]] + t[..k - 1];
      assert s[k + 1..] == t[k..];
    }
  }

  /** `s.findIndex(p)`: the position of the first element satisfying `p`. */
  function Find<T>(s: seq<T>, p: T -> bool): (r: Option<nat>)
    ensures r.Some? ==> r.value < |s| && p(s[r.value]) && forall j :: 0 <= j < r.value ==> !p(s[j])
    ensures r.None? ==> forall j :: 0 <= j < |s| ==> !p(s[j])
  {
    if s == [] then None
    else if p(s[0]) then Some(0)
    else
      match Find(s[1..], p)
      case None => None
      case Some(k) => Some(k + 1)
  }

  /** Only the last element satisfies `p`: it is the one found. */
  lemma FindLast<T>(s: seq<T>, p: T -> bool)
    requires s != [] && p(s[|s| - 1])
    requires forall j :: 0 <= j < |s| - 1 ==> !p(s[j])
    ensures Find(s, p) == Some(|s| - 1)
  {
  }

  /** `s.filter(p)`: the elements satisfying `p`, in order. */
  function Filter<T>(s: seq<T>, p: T -> bool): (r: seq<T>)
    ensures |r| <= |s|
    ensures forall k :: 0 <= k < |r| ==> p(r[k]) && r[k] in s
    ensures forall k :: 0 <= k < |s| && p(s[k]) ==> s[k] in r
  {
    if s == [] then []
    else if p(s[0]) then [s[0]] + Filter(s[1..], p)
    else Filter(s[1..], p)
  }

  /** `set.add(x)` on a JavaScript `Set` kept as its contents in insertion
      order: a new element goes last, a present one changes nothing. */
  function SetAdd<T(==,!new)>(s: seq<T>, x: T): (r: seq<T>)
    requires NoDuplicates(s)
    ensures NoDuplicates(r)
    ensures forall y :: y in r <==> y in s || y == x
    ensures x in s ==> r == s
    ensures x !in s ==> |r| == |s| + 1 && r[..|s|] == s && r[|s|] == x
  {
    if x in s then s else s + [x]
  }

  /** Truthiness of a JavaScript `number | null | undefined`. */
  predicate Truthy(o: Option<int>) {
    o.Some? && o.value != 0
  }

  lemma UpdateTwice<K, V>(m: map<K, V>, k: K, a: V, b: V)
    ensures m[k := a][k := b] == m[k := b]
  {
  }

  lemma UpdateSame<K, V>(m: map<K, V>, k: K)
    requires k in m
    ensures m[k := m[k]] == m
  {
  }

  /** Deleting an element that occurs once closes the gap it leaves. */
  lemma RemoveMiddle<T(!new)>(a: seq<T>, x: T, b: seq<T>)
    requires NoDuplicates(a + ([x] + b))
    ensures RemoveAll(a + ([x] + b), x) == a + b
  {
    var s := a + ([x] + b);
    RemoveAllAt(s, |a|);
    assert s[|a|] == x && s[..|a|] == a && s[|a| + 1..] == b;
  }

  lemma Prefix<T>(s: seq<T>, i: nat)
    requires i < |s|
    ensures s[..i + 1][..i] == s[..i] && s[..i + 1][i] == s[i] && |s[..i + 1]| == i + 1
  {
  }

  lemma Drop<T>(s: seq<T>, i: nat)
    requires i < |s|
    ensures s[i..] == [s[i]] + s[i + 1..] && s[i..][1..] == s[i + 1..]
  {
  }

  lemma Assoc<T>(a: seq<T>, b: seq<T>, c: seq<T>)
    ensures a + (b + c) == (a + b) + c
  {
  }

  lemma {:induction false} RemoveAllAppend<T(!new)>(a: seq<T>, b: seq<T>, v: T)
    ensures RemoveAll(a + b, v) == RemoveAll(a, v) + RemoveAll(b, v)
  {
    if a != [] {
      var x, rest := a[0], a[1..];
      assert a + b == [x] + (rest + b);
      RemoveAllAppend(rest, b, v);
      if x != v {
        Assoc([x], RemoveAll(rest, v), RemoveAll(b, v));
      }
    } else {
      assert a + b == b;
    }
  }

  /** Adding a name to a set and then deleting it leaves the set as deleting
      alone would: a name that was absent is absent again and nothing else
      changed. */
  lemma AddThenDelete<T(!new)>(s: seq<T>, x: T)
    requires NoDuplicates(s)
    ensures RemoveAll(SetAdd(s, x), x) == RemoveAll(s, x)
    ensures x !in s ==> RemoveAll(SetAdd(s, x), x) == s
  {
    if x !in s {
      RemoveAllAppend(s, [x], x);
      assert RemoveAll([x], x) == [];
    }
  }

  /** `[...new Set(s)]`: the first occurrence of every element, in order. */
  function Dedup<T(==,!new)>(s: seq<T>): (r: seq<T>)
    ensures NoDuplicates(r)
    ensures forall x :: x in r <==> x in s
    decreases |s|
  {
    if s == [] then []
    else
      var rest := Dedup(s[..|s| - 1]);
      var last := s[|s| - 1];
      assert forall x :: x in s <==> x in s[..|s| - 1] || x == last by {
        assert s == s[..|s| - 1] + [last];
      }
      if last in rest then rest else rest + [last]
  }

  /** Filtering keeps the order: a list whose keys ascend strictly gives a
      filtered list whose keys ascend strictly. */
  lemma {:induction false} FilterAscending<T>(s: seq<T>, p: T -> bool, key: T -> int)
    requires forall i, j :: 0 <= i < j < |s| ==> key(s[i]) < key(s[j])
    ensures forall i, j :: 0 <= i < j < |Filter(s, p)| ==> key(Filter(s, p)[i]) < key(Filter(s, p)[j])
  {
    if s != [] {
      var tail := s[1..];
      assert forall i, j :: 0 <= i < j < |tail| ==> key(tail[i]) < key(tail[j]) by {
        forall i, j | 0 <= i < j < |tail| ensures key(tail[i]) < key(tail[j]) {
          assert tail[i] == s[i + 1] && tail[j] == s[j + 1];
        }
      }
      FilterAscending(tail, p, key);
      var rest := Filter(tail, p);
      if p(s[0]) {
        forall k | 0 <= k < |rest| ensures key(s[0]) < key(rest[k]) {
          var n :| 0 <= n < |tail| && tail[n] == rest[k];
          assert tail[n] == s[n + 1];
        }
        var r := [s[0]] + rest;
        forall i, j | 0 <= i < j < |r| ensures key(r[i]) < key(r[j]) {
          assert r[j] == rest[j - 1];
          if i > 0 {
            assert r[i] == rest[i - 1];
            assert key(rest[i - 1]) < key(rest[j - 1]);
          } else {
            assert key(s[0]) < key(rest[j - 1]);
          }
        }
      }
    }
  }

  /** A list without duplicates passes through a `Set` unchanged, order
      included. */
  lemma {:induction false} DedupOfDistinct<T(!new)>(s: seq<T>)
    requires NoDuplicates(s)
    ensures Dedup(s) == s
    decreases |s|
  {
    if s != [] {
      var init := s[..|s| - 1];
      assert NoDuplicates(init) by {
        forall i, j | 0 <= i < j < |init| ensures init[i] != init[j] {
          assert init[i] == s[i] && init[j] == s[j];
        }
      }
      DedupOfDistinct(init);
      assert s[|s| - 1] !in init by {
        forall k | 0 <= k < |init| ensures init[k] != s[|s| - 1] {
          assert init[k] == s[k];
        }
      }
      assert init + [s[|s| - 1]] == s;
    }
  }

  /** The characters that JavaScript's `String.prototype.trim` removes:
      WhiteSpace and LineTerminator of ECMAScript section 12.2 and 12.3. */
  predicate IsJsWhitespace(c: char) {
    c == '\t' || c == '\n' || c == '\U{000B}' || c == '\U{000C}' || c == '\r' || c == ' '
    || c == '\U{00A0}' || c == '\U{1680}' || ('\U{2000}' <= c <= '\U{200A}')
    || c == '\U{2028}' || c == '\U{2029}' || c == '\U{202F}' || c == '\U{205F}'
    || c == '\U{3000}' || c == '\U{FEFF}'
  }

  predicate AllWhitespace(s: string) {
    forall i :: 0 <= i < |s| ==> IsJsWhitespace(s[i])
  }

  /** The first index at or after `k` that does not hold whitespace, or
      `|s|`. */
  function SkipBlanks(s: string, k: nat): (i: nat)
    requires k <= |s|
    ensures k <= i <= |s|
    ensures forall m :: k <= m < i ==> IsJsWhitespace(s[m])
    ensures i == |s| || !IsJsWhitespace(s[i])
    decreases |s| - k
  {
    if k == |s| || !IsJsWhitespace(s[k]) then k else SkipBlanks(s, k + 1)
  }

  /** The index just past the last character of `s[i..j]` that is not
      whitespace, or `i`. */
  function SkipBlanksBack(s: string, i: nat, j: nat): (r: nat)
    requires i <= j <= |s|
    ensures i <= r <= j
    ensures forall m :: r <= m < j ==> IsJsWhitespace(s[m])
    ensures r == i || !IsJsWhitespace(s[r - 1])
    decreases j - i
  {
    if j == i || !IsJsWhitespace(s[j - 1]) then j else SkipBlanksBack(s, i, j - 1)
  }

  /** `s` without its leading whitespace. */
  function TrimStart(s: string): (r: string)
    ensures |r| <= |s| && r == s[|s| - |r|..]
    ensures forall k :: 0 <= k < |s| - |r| ==> IsJsWhitespace(s[k])
    ensures r == [] || !IsJsWhitespace(r[0])
  {
    s[SkipBlanks(s, 0)..]
  }

  /** `s.trim()` */
  function Trim(s: string): string {
    var i := SkipBlanks(s, 0);
    s[i..SkipBlanksBack(s, i, |s|)]
  }

  /** Where the piece that `trim` keeps starts and ends. */
  lemma TrimBounds(s: string) returns (i: nat, j: nat)
    ensures i <= j <= |s| && Trim(s) == s[i..j]
    ensures AllWhitespace(s[..i]) && AllWhitespace(s[j..])
    ensures i < j ==> !IsJsWhitespace(s[i]) && !IsJsWhitespace(s[j - 1])
  {
    i := SkipBlanks(s, 0);
    j := SkipBlanksBack(s, i, |s|);
    forall m | 0 <= m < i ensures IsJsWhitespace(s[..i][m]) {
      assert s[..i][m] == s[m];
    }
    forall m | 0 <= m < |s| - j ensures IsJsWhitespace(s[j..][m]) {
      assert s[j..][m] == s[j + m];
    }
  }

  /** What `trim` keeps is a contiguous piece of the input, everything cut
      away is whitespace, and a non-empty result neither starts nor ends with
      whitespace. */
  lemma TrimIsInfix(s: string)
    ensures exists i, j :: 0 <= i <= j <= |s| && Trim(s) == s[i..j]
                           && AllWhitespace(s[..i]) && AllWhitespace(s[j..])
    ensures Trim(s) == [] || (!IsJsWhitespace(Trim(s)[0]) && !IsJsWhitespace(Trim(s)[|Trim(s)| - 1]))
  {
    var i, j := TrimBounds(s);
    if i < j {
      assert Trim(s)[0] == s[i] && Trim(s)[|Trim(s)| - 1] == s[j - 1];
    }
  }

  /** `trim` gives the empty string exactly when the input is all whitespace. */
  lemma TrimEmptyIff(s: string)
    ensures Trim(s) == [] <==> AllWhitespace(s)
  {
    var i, j := TrimBounds(s);
    if Trim(s) == [] {
      assert i == j;
      forall k | 0 <= k < |s| ensures IsJsWhitespace(s[k]) {
        if k < i { assert s[..i][k] == s[k]; } else { assert s[j..][k - j] == s[k]; }
      }
    } else {
      assert Trim(s)[0] == s[i];
    }
  }

  lemma TrimIdempotent(s: string)
    ensures Trim(Trim(s)) == Trim(s)
  {
    TrimIsInfix(s);
  }

  // ----- decimal numbers -----

  predicate IsDigit(c: char) { '0' <= c <= '9' }

  function DigitChar(d: nat): (c: char)
    requires d < 10
    ensures IsDigit(c)
  {
    (48 + d) as char
  }

  function DigitValue(c: char): (d: nat)
    requires IsDigit(c)
    ensures d < 10
  {
    c as int - 48
  }

  /** The decimal spelling of a natural number, as `${n}` produces it. */
  function NatToString(n: nat): (s: string)
    ensures |s| >= 1 && forall i :: 0 <= i < |s| ==> IsDigit(s[i])
  {
    if n < 10 then [DigitChar(n)] else NatToString(n / 10) + [DigitChar(n % 10)]
  }

  /** `${i}` for an integer. */
  function IntToString(i: int): (s: string)
    ensures |s| >= 1 && s[0] != ':' && ':' !in s && !IsJsWhitespace(s[0])
  {
    if i < 0 then "-" + NatToString(-i) else NatToString(i)
  }

  /** The value of a string of decimal digits. */
  function DigitsValue(s: string): nat
    requires forall i :: 0 <= i < |s| ==> IsDigit(s[i])
  {
    if s == [] then 0 else DigitsValue(s[..|s| - 1]) * 10 + DigitValue(s[|s| - 1])
  }

  /** The longest prefix of `s` made of decimal digits. */
  function DigitPrefix(s: string): (r: string)
    ensures |r| <= |s| && r == s[..|r|]
    ensures forall i :: 0 <= i < |r| ==> IsDigit(r[i])
    ensures |r| == |s| || !IsDigit(s[|r|])
  {
    if s == [] || !IsDigit(s[0]) then []
    else [s[0]] + DigitPrefix(s[1..])
  }

  /** `parseInt(s)` without a radix, on decimal text: leading whitespace
      skipped, an optional sign, then the longest run of digits; no digit at
      all gives `NaN` (`None`). Without a radix `parseInt` also reads a
      `0x`/`0X` prefix as hexadecimal; that case is not modelled, because the
      only text parsed is a group name the server builds from a decimal room
      id. */
  function ParseInt(s: string): Option<int> {
    var t := TrimStart(s);
    var negative := |t| > 0 && t[0] == '-';
    var body := if |t| > 0 && (t[0] == '-' || t[0] == '+') then t[1..] else t;
    var digits := DigitPrefix(body);
    var magnitude: int := if digits == [] then 0 else DigitsValue(digits);
    if digits == [] then None
    else if negative then Some(-magnitude)
    else Some(magnitude)
  }

  lemma {:induction false} DigitsValueOfNatToString(n: nat)
    ensures DigitsValue(NatToString(n)) == n
  {
    if n >= 10 {
      var s := NatToString(n / 10) + [DigitChar(n % 10)];
      assert s[..|s| - 1] == NatToString(n / 10);
      DigitsValueOfNatToString(n / 10);
    }
  }

  lemma {:induction false} DigitPrefixOfDigits(s: string)
    requires forall i :: 0 <= i < |s| ==> IsDigit(s[i])
    ensures DigitPrefix(s) == s
  {
    if s != [] {
      DigitPrefixOfDigits(s[1..]);
    }
  }

  /** Reading back the decimal spelling of an integer with `parseInt` gives
      the integer. */
  lemma ParseIntOfIntToString(i: int)
    ensures ParseInt(IntToString(i)) == Some(i)
  {
    var s := IntToString(i);
    assert SkipBlanks(s, 0) == 0;
    assert TrimStart(s) == s;
    var n: nat := if i < 0 then -i else i;
    var digits := NatToString(n);
    if i < 0 {
      assert s == "-" + digits && s[1..] == digits;
    } else {
      assert s == digits && s[0] != '-' && s[0] != '+';
    }
    DigitPrefixOfDigits(digits);
    DigitsValueOfNatToString(n);
  }

  /** The characters of `s` before its first ':' (all of `s` if it has none). */
  function UpToColon(s: string): (r: string)
    ensures |r| <= |s| && r == s[..|r|] && ':' !in r
    ensures |r| == |s| || s[|r|] == ':'
  {
    if s == [] || s[0] == ':' then [] else [s[0]] + UpToColon(s[1..])
  }

  lemma UpToColonWithout(s: string)
    requires ':' !in s
    ensures UpToColon(s) == s
  {
  }
}
