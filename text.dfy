/**
  The Python string primitives the audit rules rely on, over strings of
  code points: `str.isspace`, `str.lower`, `in`, `startswith`, `endswith`,
  `strip`, `split`, `replace` with an empty replacement, `count`, and the
  regular-expression classes `\s` and `\d`.
*/
module Text {

  /**
    The characters Python treats as whitespace in `str.isspace`, `str.strip()`,
    `str.split()` and in the regular-expression class `\s`.
  */
  predicate IsSpace(c: char)
  {
    ('\U{9}' <= c <= '\U{D}') || ('\U{1C}' <= c <= '\U{20}') || c == '\U{85}' || c == '\U{A0}'
    || c == '\U{1680}' || ('\U{2000}' <= c <= '\U{200A}') || c == '\U{2028}' || c == '\U{2029}'
    || c == '\U{202F}' || c == '\U{205F}' || c == '\U{3000}'
  }

  /** The regular-expression class `\d`, restricted to ASCII digits. */
  predicate IsDigit(c: char)
  {
    '0' <= c <= '9'
  }

  /** `str.lower` on ASCII and Latin-1 capitals (this covers Æ, Ø and Å). */
  function LowerChar(c: char): char
  {
    if 'A' <= c <= 'Z' || ('\U{C0}' <= c <= '\U{DE}' && c != '\U{D7}') then (c as int + 32) as char else c
  }

  function Lower(s: string): string
  {
    seq(|s|, i requires 0 <= i < |s| => LowerChar(s[i]))
  }

  predicate StartsWith(s: string, prefix: string)
  {
    |prefix| <= |s| && s[..|prefix|] == prefix
  }

  predicate EndsWith(s: string, suffix: string)
  {
    |suffix| <= |s| && s[|s| - |suffix|..] == suffix
  }

  /** Python's `part in s` for strings. */
  predicate Contains(s: string, part: string)
  {
    exists i | 0 <= i <= |s| :: StartsWith(s[i..], part)
  }

  /** `any(part in s for part in parts)`. */
  predicate ContainsAny(s: string, parts: seq<string>)
  {
    exists part | part in parts :: Contains(s, part)
  }

  predicate AllSpace(s: string)
  {
    forall i | 0 <= i < |s| :: IsSpace(s[i])
  }

  predicate AllDigits(s: string)
  {
    forall i | 0 <= i < |s| :: IsDigit(s[i])
  }

  /** Full match of `\d{n}`. */
  predicate DigitsOfLength(s: string, n: nat)
  {
    |s| == n && AllDigits(s)
  }

  function TrimStart(s: string): string
  {
    if |s| > 0 && IsSpace(s[0]) then TrimStart(s[1..]) else s
  }

  function TrimEnd(s: string): string
  {
    if |s| > 0 && IsSpace(s[|s| - 1]) then TrimEnd(s[..|s| - 1]) else s
  }

  /** `str.strip()` with no argument. */
  function Strip(s: string): string
  {
    TrimEnd(TrimStart(s))
  }

  /** `s.replace(c, '')`: every occurrence of `c` removed. */
  function RemoveAll(s: string, c: char): string
  {
    if |s| == 0 then [] else (if s[0] == c then [] else [s[0]]) + RemoveAll(s[1..], c)
  }

  /** `s.count(c)` for a one-character argument. */
  function CountChar(s: string, c: char): nat
  {
    if |s| == 0 then 0 else CountChar(s[..|s| - 1], c) + (if s[|s| - 1] == c then 1 else 0)
  }

  /** The part of `s` after the last separator: `s.split(sep)[-1]` for a one-character `sep`. */
  function SuffixAfterLast(s: string, isSep: char -> bool): string
  {
    if |s| == 0 || isSep(s[|s| - 1]) then [] else SuffixAfterLast(s[..|s| - 1], isSep) + [s[|s| - 1]]
  }

  /** Position of the first `c` in `s`, or `|s|` when there is none. */
  function IndexOf(s: string, c: char): (r: nat)
    ensures r <= |s|
    ensures r < |s| ==> s[r] == c
    ensures forall i | 0 <= i < r :: s[i] != c
  {
    if |s| == 0 then 0 else if s[0] == c then 0 else 1 + IndexOf(s[1..], c)
  }

  lemma {:induction false} TrimStartShape(s: string)
    ensures |TrimStart(s)| <= |s| && TrimStart(s) == s[|s| - |TrimStart(s)|..]
    ensures AllSpace(s[..|s| - |TrimStart(s)|])
    ensures TrimStart(s) != [] ==> !IsSpace(TrimStart(s)[0])
  {
    if |s| > 0 && IsSpace(s[0]) {
      TrimStartShape(s[1..]);
      var k := |s| - |TrimStart(s)|;
      assert s[k..] == s[1..][k - 1..];
      var rest := s[1..][..k - 1];
      assert AllSpace(rest);
      forall i | 0 <= i < k ensures IsSpace(s[..k][i]) {
        if i == 0 {
          assert s[..k][i] == s[0];
        } else {
          assert s[..k][i] == rest[i - 1];
        }
      }
    }
  }

  lemma {:induction false} TrimEndShape(s: string)
    ensures |TrimEnd(s)| <= |s| && TrimEnd(s) == s[..|TrimEnd(s)|]
    ensures AllSpace(s[|TrimEnd(s)|..])
    ensures TrimEnd(s) != [] ==> !IsSpace(TrimEnd(s)[|TrimEnd(s)| - 1])
  {
    if |s| > 0 && IsSpace(s[|s| - 1]) {
      var init := s[..|s| - 1];
      TrimEndShape(init);
      var k := |TrimEnd(s)|;
      assert s[..k] == init[..k];
      forall i | k <= i < |s| ensures IsSpace(s[i]) {
        if i < |s| - 1 {
          assert s[i] == init[k..][i - k];
        }
      }
    }
  }

  /**
    `strip()` cuts a (possibly empty) run of whitespace from each end and
    nothing else: what remains is a slice of the input that, unless empty,
    starts and ends with a non-whitespace character.
  */
  lemma StripIsTrimmedSlice(s: string)
    ensures exists i, j :: 0 <= i <= j <= |s| && Strip(s) == s[i..j] && AllSpace(s[..i]) && AllSpace(s[j..])
    ensures Strip(s) != [] ==> !IsSpace(Strip(s)[0]) && !IsSpace(Strip(s)[|Strip(s)| - 1])
  {
    var t := TrimStart(s);
    TrimStartShape(s);
    TrimEndShape(t);
    var i := |s| - |t|;
    var j := i + |TrimEnd(t)|;
    assert Strip(s) == s[i..j];
    assert s[j..] == t[|TrimEnd(t)|..];
    if Strip(s) != [] {
      assert Strip(s)[0] == t[0];
    }
  }

  /** A string strips to nothing exactly when it is all whitespace: Python's `if line.strip()`. */
  lemma {:induction false} StripEmptyIffAllSpace(s: string)
    ensures Strip(s) == [] <==> AllSpace(s)
  {
    TrimStartShape(s);
    var t := TrimStart(s);
    TrimEndShape(t);
    if !AllSpace(s) {
      var k :| 0 <= k < |s| && !IsSpace(s[k]);
      var i := |s| - |t|;
      assert t[k - i] == s[k];
    }
  }

  /** `split(sep)[-1]` really is the last field: free of separators, a suffix, and preceded by a separator when shorter. */
  lemma {:induction false} SuffixAfterLastIsLastField(s: string, isSep: char -> bool)
    ensures EndsWith(s, SuffixAfterLast(s, isSep))
    ensures forall i | 0 <= i < |SuffixAfterLast(s, isSep)| :: !isSep(SuffixAfterLast(s, isSep)[i])
    ensures |SuffixAfterLast(s, isSep)| < |s| ==> isSep(s[|s| - |SuffixAfterLast(s, isSep)| - 1])
  {
    if |s| > 0 && !isSep(s[|s| - 1]) {
      var init := s[..|s| - 1];
      SuffixAfterLastIsLastField(init, isSep);
      var r := SuffixAfterLast(s, isSep);
      assert s[|s| - |r|..] == init[|init| - (|r| - 1)..] + [s[|s| - 1]];
      if |r| < |s| {
        assert s[|s| - |r| - 1] == init[|init| - (|r| - 1) - 1];
      }
    }
  }

  /**
    After removal the character is gone, every other character keeps its
    number of occurrences, and a string without it is unchanged.
  */
  lemma {:induction false} RemoveAllRemoves(s: string, c: char)
    ensures c !in RemoveAll(s, c)
    ensures |RemoveAll(s, c)| == |s| - CountChar(s, c)
    ensures forall x :: multiset(RemoveAll(s, c))[x] == if x == c then 0 else multiset(s)[x]
    ensures c !in s ==> RemoveAll(s, c) == s
  {
    if |s| > 0 {
      RemoveAllRemoves(s[1..], c);
      CountCharSplit(s, c);
    }
    RemoveAllKeepsOthers(s, c);
  }

  /** Removal keeps every other character as often as it occurs. */
  lemma {:induction false} RemoveAllKeepsOthers(s: string, c: char)
    ensures forall x :: multiset(RemoveAll(s, c))[x] == if x == c then 0 else multiset(s)[x]
  {
    if |s| > 0 {
      var rest := s[1..];
      RemoveAllKeepsOthers(rest, c);
      var kept := if s[0] == c then [] else [s[0]];
      assert RemoveAll(s, c) == kept + RemoveAll(rest, c);
      assert multiset(RemoveAll(s, c)) == multiset(kept) + multiset(RemoveAll(rest, c));
      assert s == [s[0]] + rest;
      assert multiset(s) == multiset([s[0]]) + multiset(rest);
      forall x ensures multiset(RemoveAll(s, c))[x] == if x == c then 0 else multiset(s)[x] {
        if x == c {
          assert multiset(kept)[x] == 0;
        } else {
          assert multiset(kept)[x] == multiset([s[0]])[x];
        }
      }
    }
  }

  /** Removal works piece by piece, so the characters that remain keep their order. */
  lemma {:induction false} RemoveAllConcat(a: string, b: string, c: char)
    ensures RemoveAll(a + b, c) == RemoveAll(a, c) + RemoveAll(b, c)
  {
    if |a| > 0 {
      RemoveAllConcat(a[1..], b, c);
      assert (a + b)[1..] == a[1..] + b;
    } else {
      assert a + b == b;
    }
  }

  lemma {:induction false} CountCharSplit(s: string, c: char)
    requires |s| > 0
    ensures CountChar(s, c) == (if s[0] == c then 1 else 0) + CountChar(s[1..], c)
  {
    if |s| > 1 {
      var init := s[..|s| - 1];
      CountCharSplit(init, c);
      assert init[1..] == s[1..][..|s[1..]| - 1];
    }
  }
}
