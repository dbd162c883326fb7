/**
  The few pieces of Python's `str` that the response handling relies on:
  `strip()`, `split(sep)`, `sep.join(...)`, `lower()` and the `in` test for
  substrings. Strings are sequences of Unicode scalar values; the lone
  surrogates that Python's `str` can also hold are not modelled.
 */
module Text {

  /** Python's `str.isspace` for one character: the characters `strip()` removes. */
  predicate IsSpace(c: char)
  {
    c == ' ' || c == '\t' || c == '\n' || c == '\r' || c == '\U{0B}' || c == '\U{0C}'
    || ('\U{1C}' <= c <= '\U{1F}') || c == '\U{85}' || c == '\U{A0}' || c == '\U{1680}'
    || ('\U{2000}' <= c <= '\U{200A}') || c == '\U{2028}' || c == '\U{2029}'
    || c == '\U{202F}' || c == '\U{205F}' || c == '\U{3000}'
  }

  /** True when `s` has no whitespace at either end. */
  predicate Trimmed(s: string)
  {
    s == [] || (!IsSpace(s[0]) && !IsSpace(s[|s| - 1]))
  }

  /** `s` with its leading whitespace removed. */
  function TrimStart(s: string): (r: string)
    ensures |r| <= |s|
    ensures r == [] || !IsSpace(r[0])
  {
    if |s| > 0 && IsSpace(s[0]) then TrimStart(s[1..]) else s
  }

  /** `TrimStart` removes a prefix, all of it whitespace. */
  lemma {:induction false} TrimStartSpaces(s: string)
    ensures TrimStart(s) == s[|s| - |TrimStart(s)|..]
    ensures forall i :: 0 <= i < |s| - |TrimStart(s)| ==> IsSpace(s[i])
  {
    if |s| > 0 && IsSpace(s[0]) {
      TrimStartSpaces(s[1..]);
      assert forall i :: 1 <= i < |s| ==> s[i] == s[1..][i - 1];
    }
  }

  /** `s` with its trailing whitespace removed. */
  function TrimEnd(s: string): (r: string)
    ensures |r| <= |s|
    ensures r == [] || !IsSpace(r[|r| - 1])
  {
    if |s| > 0 && IsSpace(s[|s| - 1]) then TrimEnd(s[..|s| - 1]) else s
  }

  /** `TrimEnd` removes a suffix, all of it whitespace. */
  lemma {:induction false} TrimEndSpaces(s: string)
    ensures TrimEnd(s) == s[..|TrimEnd(s)|]
    ensures forall i :: |TrimEnd(s)| <= i < |s| ==> IsSpace(s[i])
  {
    if |s| > 0 && IsSpace(s[|s| - 1]) {
      TrimEndSpaces(s[..|s| - 1]);
    }
  }

  /** Python's `s.strip()`. */
  function Strip(s: string): (r: string)
    ensures Trimmed(r)
    ensures |r| <= |s|
  {
    var t := TrimStart(s);
    TrimEndSpaces(t);
    TrimEnd(t)
  }

  /** A character absent from a string is absent from its stripped form. */
  lemma StripAvoids(s: string, x: char)
    requires x !in s
    ensures x !in Strip(s)
  {
    var t := TrimStart(s);
    TrimStartSpaces(s);
    TrimEndSpaces(t);
    assert forall c :: c in t ==> c in s;
    assert forall c :: c in TrimEnd(t) ==> c in t;
  }

  /** A string already free of edge whitespace is left alone by `strip()`. */
  lemma StripTrimmed(s: string)
    requires Trimmed(s)
    ensures Strip(s) == s
  {
  }

  /** `strip()` yields the empty string exactly when every character is whitespace. */
  lemma StripEmptyIff(s: string)
    ensures Strip(s) == [] <==> forall i :: 0 <= i < |s| ==> IsSpace(s[i])
  {
    var t := TrimStart(s);
    TrimStartSpaces(s);
    TrimEndSpaces(t);
  }

  /** Leading whitespace in front of a non-space character is all `TrimStart` removes. */
  lemma TrimStartSkips(before: string, t: string)
    requires forall i :: 0 <= i < |before| ==> IsSpace(before[i])
    requires t != [] && !IsSpace(t[0])
    ensures TrimStart(before + t) == t
  {
    var s := before + t;
    var r := TrimStart(s);
    TrimStartSpaces(s);
    assert s[|before|] == t[0];
  }

  /** Trailing whitespace after a non-space character is all `TrimEnd` removes. */
  lemma TrimEndSkips(t: string, after: string)
    requires forall i :: 0 <= i < |after| ==> IsSpace(after[i])
    requires t != [] && !IsSpace(t[|t| - 1])
    ensures TrimEnd(t + after) == t
  {
    var s := t + after;
    var r := TrimEnd(s);
    TrimEndSpaces(s);
    assert s[|t| - 1] == t[|t| - 1];
  }

  /** `strip()` removes exactly the whitespace around a word that has none at its ends. */
  lemma StripSurrounded(before: string, w: string, after: string)
    requires forall i :: 0 <= i < |before| ==> IsSpace(before[i])
    requires forall i :: 0 <= i < |after| ==> IsSpace(after[i])
    requires w != [] && Trimmed(w)
    ensures Strip(before + w + after) == w
  {
    assert before + w + after == before + (w + after);
    assert (w + after)[0] == w[0];
    TrimStartSkips(before, w + after);
    TrimEndSkips(w, after);
  }

  /** The same character, or the same ASCII letter in the other case. */
  predicate SameIgnoringCase(a: char, b: char)
  {
    a == b
    || ('A' <= a <= 'Z' && b == (a as int + 32) as char)
    || ('A' <= b <= 'Z' && a == (b as int + 32) as char)
  }

  /** Python's `s.lower()`, restricted to ASCII letters. */
  function Lower(s: string): (r: string)
    ensures |r| == |s|
  {
    seq(|s|, i requires 0 <= i < |s| => if 'A' <= s[i] <= 'Z' then (s[i] as int + 32) as char else s[i])
  }

  /** Python's `sep.join(parts)` for a one-character separator. */
  function Join(parts: seq<string>, sep: char): string
  {
    if |parts| == 0 then ""
    else if |parts| == 1 then parts[0]
    else parts[0] + [sep] + Join(parts[1..], sep)
  }

  /** Python's `s.split(sep)` for a one-character separator. */
  function Split(s: string, sep: char): (parts: seq<string>)
    ensures |parts| >= 1
    decreases |s|
  {
    if |s| == 0 then [""]
    else
      var rest := Split(s[1..], sep);
      if s[0] == sep then [""] + rest
      else [[s[0]] + rest[0]] + rest[1..]
  }

  /** No piece of a split holds the separator. */
  lemma {:induction false} SplitAvoids(s: string, sep: char)
    ensures forall i :: 0 <= i < |Split(s, sep)| ==> sep !in Split(s, sep)[i]
    decreases |s|
  {
    if |s| > 0 {
      SplitAvoids(s[1..], sep);
      var rest := Split(s[1..], sep);
      if s[0] != sep {
        assert sep !in rest[0];
        assert Split(s, sep) == [[s[0]] + rest[0]] + rest[1..];
      }
    }
  }

  /** Joining the pieces of a split with the separator gives the string back. */
  lemma {:induction false} JoinSplit(s: string, sep: char)
    ensures Join(Split(s, sep), sep) == s
    decreases |s|
  {
    if |s| > 0 {
      JoinSplit(s[1..], sep);
      var rest := Split(s[1..], sep);
      if s[0] == sep {
        assert s == [sep] + s[1..];
      } else {
        var parts := [[s[0]] + rest[0]] + rest[1..];
        assert parts[1..] == rest[1..];
        assert s == [s[0]] + s[1..];
      }
    }
  }

  /** Every piece of a split is made of characters of the input. */
  lemma SplitChars(s: string, sep: char, c: char)
    requires c !in s
    ensures forall i :: 0 <= i < |Split(s, sep)| ==> c !in Split(s, sep)[i]
    decreases |s|
  {
    if |s| > 0 {
      SplitChars(s[1..], sep, c);
      var rest := Split(s[1..], sep);
      if s[0] != sep {
        assert c !in rest[0];
        assert Split(s, sep) == [[s[0]] + rest[0]] + rest[1..];
      }
    }
  }

  /** Splitting a piece followed by a separator peels that piece off. */
  lemma {:induction false} SplitAfter(a: string, t: string, sep: char)
    requires sep !in a
    ensures Split(a + [sep] + t, sep) == [a] + Split(t, sep)
    decreases |a|
  {
    var s := a + [sep] + t;
    if |a| == 0 {
      assert s == [sep] + t;
      assert s[1..] == t;
    } else {
      assert s[1..] == a[1..] + [sep] + t;
      SplitAfter(a[1..], t, sep);
      assert [a[0]] + a[1..] == a;
    }
  }

  /** Splitting a string without the separator yields that string alone. */
  lemma {:induction false} SplitWithout(a: string, sep: char)
    requires sep !in a
    ensures Split(a, sep) == [a]
    decreases |a|
  {
    if |a| > 0 {
      SplitWithout(a[1..], sep);
      assert [a[0]] + a[1..] == a;
    }
  }

  /** `split` undoes `join` when no part holds the separator. */
  lemma {:induction false} SplitJoin(parts: seq<string>, sep: char)
    requires |parts| >= 1
    requires forall i :: 0 <= i < |parts| ==> sep !in parts[i]
    ensures Split(Join(parts, sep), sep) == parts
  {
    if |parts| == 1 {
      SplitWithout(parts[0], sep);
    } else {
      assert forall i :: 0 <= i < |parts[1..]| ==> parts[1..][i] == parts[i + 1];
      SplitJoin(parts[1..], sep);
      SplitAfter(parts[0], Join(parts[1..], sep), sep);
    }
  }

  /** `k` occurs in `s` starting at index `i`. */
  predicate OccursAt(k: string, s: string, i: int)
  {
    0 <= i && i + |k| <= |s| && s[i..i + |k|] == k
  }

  /** Python's `k in s` for strings. */
  function Contains(s: string, k: string): bool
    decreases |s|
  {
    if |s| < |k| then false
    else if s[..|k|] == k then true
    else Contains(s[1..], k)
  }

  /** `k in s` holds exactly when `k` occurs in `s` at some index. */
  lemma {:induction false} ContainsIff(s: string, k: string)
    ensures Contains(s, k) <==> exists i :: OccursAt(k, s, i)
    decreases |s|
  {
    if |s| < |k| {
    } else if s[..|k|] == k {
      assert OccursAt(k, s, 0);
    } else {
      ContainsIff(s[1..], k);
      forall i | OccursAt(k, s[1..], i) ensures OccursAt(k, s, i + 1) {
        assert s[1..][i..i + |k|] == s[i + 1..i + 1 + |k|];
      }
      assert s[0..|k|] == s[..|k|];
      forall i | OccursAt(k, s, i) && i > 0 ensures OccursAt(k, s[1..], i - 1) {
        assert s[1..][i - 1..i - 1 + |k|] == s[i..i + |k|];
      }
    }
  }

  /** Python's `any(k in s for k in keys)`. */
  function ContainsAny(s: string, keys: seq<string>): bool
  {
    if |keys| == 0 then false
    else Contains(s, keys[0]) || ContainsAny(s, keys[1..])
  }

  /** `any` holds exactly when some key is contained. */
  lemma {:induction false} ContainsAnyIff(s: string, keys: seq<string>)
    ensures ContainsAny(s, keys) <==> exists j :: 0 <= j < |keys| && Contains(s, keys[j])
  {
    if |keys| > 0 {
      ContainsAnyIff(s, keys[1..]);
      assert forall j :: 1 <= j < |keys| ==> keys[1..][j - 1] == keys[j];
    }
  }

  /** Python's `xs[-n:]` for a positive `n`: the last `n` elements, or all of them. */
  function LastN<T>(xs: seq<T>, n: nat): (r: seq<T>)
    ensures |r| == if |xs| <= n then |xs| else n
    ensures r == xs[|xs| - |r|..]
  {
    if |xs| <= n then xs else xs[|xs| - n..]
  }
}
