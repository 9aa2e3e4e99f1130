/** The few Python string operations the launcher and the path list rely on:
    `sub in s`, `s.replace(old, new)`, `s.lower()`, `s.strip()`,
    `' '.join(tokens)` and, as the reference inverse of that join, `s.split(' ')`. */
module Text {

  /** Python's `sub in s`: some slice of `s` equals `sub`. */
  predicate Contains(s: string, sub: string)
    decreases |s|
  {
    if |s| < |sub| then false
    else s[..|sub|] == sub || Contains(s[1..], sub)
  }

  /** `sub` occurs in `s` starting at index `i`. */
  predicate OccursAt(s: string, sub: string, i: nat)
  {
    i + |sub| <= |s| && s[i..i + |sub|] == sub
  }

  /** `sub in s` holds exactly when `sub` occurs at some index of `s`. */
  lemma {:induction false} ContainsMeans(s: string, sub: string)
    ensures Contains(s, sub) <==> exists i: nat :: OccursAt(s, sub, i)
    decreases |s|
  {
    if |s| < |sub| {
      forall i: nat
        ensures !OccursAt(s, sub, i)
      {
      }
    } else if s[..|sub|] == sub {
      assert OccursAt(s, sub, 0);
    } else {
      ContainsMeans(s[1..], sub);
      if Contains(s[1..], sub) {
        var i: nat :| OccursAt(s[1..], sub, i);
        assert s[1..][i..i + |sub|] == s[i + 1..i + 1 + |sub|];
        assert OccursAt(s, sub, i + 1);
      }
      forall i: nat | OccursAt(s, sub, i)
        ensures Contains(s[1..], sub)
      {
        assert i != 0;
        assert s[1..][i - 1..i - 1 + |sub|] == s[i..i + |sub|];
        assert OccursAt(s[1..], sub, i - 1);
      }
    }
  }

  /** Python's `s.replace(pat, rep)`: scans left to right, replaces each
      non-overlapping occurrence and never rescans the inserted text. */
  function Replace(s: string, pat: string, rep: string): string
    requires |pat| > 0
    decreases |s|
  {
    if |s| < |pat| then s
    else if s[..|pat|] == pat then rep + Replace(s[|pat|..], pat, rep)
    else [s[0]] + Replace(s[1..], pat, rep)
  }

  lemma {:induction false} ReplaceAbsent(s: string, pat: string, rep: string)
    requires |pat| > 0 && !Contains(s, pat)
    ensures Replace(s, pat, rep) == s
    decreases |s|
  {
    if |s| >= |pat| {
      assert s[..|pat|] != pat;
      ReplaceAbsent(s[1..], pat, rep);
      assert [s[0]] + s[1..] == s;
    }
  }

  /** The first character of a replacement with a non-empty `rep`. */
  lemma ReplaceHead(s: string, pat: string, rep: string)
    requires |pat| > 0 && |s| > 0 && |rep| > 0
    ensures Replace(s, pat, rep) != []
    ensures Replace(s, pat, rep)[0] == if |s| >= |pat| && s[..|pat|] == pat then rep[0] else s[0]
  {
  }

  /** Prepending text without the mark `m` neither creates nor hides a pair starting with `m`. */
  lemma {:induction false} PrependWithoutMark(p: string, b: string, m: char, c: char)
    requires m !in p
    ensures Contains(p + b, [m, c]) <==> Contains(b, [m, c])
    decreases |p|
  {
    if p != [] {
      assert (p + b)[0] == p[0] != m;
      assert (p + b)[1..] == p[1..] + b;
      PrependWithoutMark(p[1..], b, m, c);
    } else {
      assert p + b == b;
    }
  }

  /** Text without the mark `m` holds no pair starting with `m`. */
  lemma WithoutMarkNoPair(s: string, m: char, c: char)
    requires m !in s
    ensures !Contains(s, [m, c])
  {
    PrependWithoutMark(s, [], m, c);
    assert s + [] == s;
  }

  lemma DropFirstKeepsAbsence(s: string, sub: string)
    requires !Contains(s, sub) && |s| > 0
    ensures !Contains(s[1..], sub)
  {
  }

  /** Replacing every `[m, d]` by a non-empty `rep` that holds no `m` and does
      not start with `c` leaves no `[m, c]` behind: none were created, and when
      `c == d` none survive. */
  lemma {:induction false} ReplaceLeavesNoPair(s: string, m: char, d: char, c: char, rep: string)
    requires d != m && |rep| > 0 && m !in rep && rep[0] != c
    requires c == d || !Contains(s, [m, c])
    ensures !Contains(Replace(s, [m, d], rep), [m, c])
    decreases |s|
  {
    var pat := [m, d];
    if |s| < 2 {
    } else if s[..2] == pat {
      var rest := Replace(s[2..], pat, rep);
      if c != d {
        DropFirstKeepsAbsence(s, [m, c]);
        DropFirstKeepsAbsence(s[1..], [m, c]);
        assert s[1..][1..] == s[2..];
      }
      ReplaceLeavesNoPair(s[2..], m, d, c, rep);
      PrependWithoutMark(rep, rest, m, c);
    } else {
      var rest := Replace(s[1..], pat, rep);
      if c != d {
        DropFirstKeepsAbsence(s, [m, c]);
      }
      ReplaceLeavesNoPair(s[1..], m, d, c, rep);
      ReplaceHead(s[1..], pat, rep);
      var out := [s[0]] + rest;
      assert out[1..] == rest;
    }
  }

  /** Python's `str.lower()` on the ASCII letters; no other character lowers
      to `%` or `l`, so this is all that a test for `"%l"` can observe. */
  function LowerChar(c: char): char
  {
    if 'A' <= c <= 'Z' then (c as int - 'A' as int + 'a' as int) as char else c
  }

  function Lower(s: string): string
  {
    seq(|s|, k requires 0 <= k < |s| => LowerChar(s[k]))
  }

  /** `"%l" in s.lower()` holds exactly when `s` holds `%l` or `%L`. */
  lemma {:induction false} LowerFindsEitherCase(s: string)
    ensures Contains(Lower(s), "%l") <==> Contains(s, "%l") || Contains(s, "%L")
    decreases |s|
  {
    if |s| >= 2 {
      assert |Lower(s)| == |s|;
      assert Lower(s)[0] == LowerChar(s[0]) && Lower(s)[1] == LowerChar(s[1]);
      assert Lower(s)[1..] == Lower(s[1..]);
      assert Lower(s)[..2] == "%l" <==> s[..2] == "%l" || s[..2] == "%L";
      LowerFindsEitherCase(s[1..]);
    }
  }

  /** The characters Python's `str.isspace()` (and so `str.strip()`) treats as whitespace. */
  predicate IsSpace(c: char)
  {
    || c == ' ' || '\t' <= c <= '\r' || '\U{1c}' <= c <= '\U{1f}'
    || c == '\U{85}' || c == '\U{a0}' || c == '\U{1680}' || '\U{2000}' <= c <= '\U{200a}'
    || c == '\U{2028}' || c == '\U{2029}' || c == '\U{202f}' || c == '\U{205f}' || c == '\U{3000}'
  }

  /** No whitespace at either end. */
  predicate Trimmed(s: string)
  {
    s == [] || (!IsSpace(s[0]) && !IsSpace(s[|s| - 1]))
  }

  function TrimLeft(s: string): (r: string)
    ensures |r| <= |s| && r == s[|s| - |r|..]
    ensures forall k :: 0 <= k < |s| - |r| ==> IsSpace(s[k])
    ensures r == [] || !IsSpace(r[0])
    decreases |s|
  {
    if s != [] && IsSpace(s[0]) then TrimLeft(s[1..]) else s
  }

  function TrimRight(s: string): (r: string)
    ensures |r| <= |s| && r == s[..|r|]
    ensures forall k :: |r| <= k < |s| ==> IsSpace(s[k])
    ensures r == [] || !IsSpace(r[|r| - 1])
    decreases |s|
  {
    if s != [] && IsSpace(s[|s| - 1]) then TrimRight(s[..|s| - 1]) else s
  }

  /** Python's `s.strip()`: the slice left after dropping whitespace from both ends. */
  function Strip(s: string): (r: string)
    ensures Trimmed(r)
    ensures exists i, j :: 0 <= i <= j <= |s| && r == s[i..j]
                           && (forall k :: 0 <= k < i ==> IsSpace(s[k]))
                           && (forall k :: j <= k < |s| ==> IsSpace(s[k]))
  {
    var t := TrimLeft(s);
    var r := TrimRight(t);
    var i := |s| - |t|;
    assert r == s[i..i + |r|];
    r
  }

  /** Stripping changes nothing exactly when there is no whitespace at either end. */
  lemma StripFixesTrimmed(s: string)
    ensures Strip(s) == s <==> Trimmed(s)
  {
    if Trimmed(s) && s != [] {
      assert TrimLeft(s) == s;
      assert TrimRight(s) == s;
    }
  }

  /** Python's `' '.join(tokens)`. */
  function Join(tokens: seq<string>): string
  {
    if |tokens| == 0 then ""
    else if |tokens| == 1 then tokens[0]
    else tokens[0] + " " + Join(tokens[1..])
  }

  function TotalLength(tokens: seq<string>): nat
  {
    if tokens == [] then 0 else |tokens[0]| + TotalLength(tokens[1..])
  }

  /** The join's length is the tokens' lengths plus one separator for each
      pair of neighbours. */
  lemma {:induction false} JoinLength(tokens: seq<string>)
    requires |tokens| >= 1
    ensures |Join(tokens)| == TotalLength(tokens) + |tokens| - 1
    decreases |tokens|
  {
    if |tokens| > 1 {
      JoinLength(tokens[1..]);
    } else {
      assert tokens[1..] == [];
    }
  }

  /** Python's `s.split(' ')`, the inverse the joined command line is read back with. */
  function SplitOnSpace(s: string): (r: seq<string>)
    ensures |r| >= 1
    decreases |s|
  {
    if s == [] then [""]
    else
      var rest := SplitOnSpace(s[1..]);
      if s[0] == ' ' then [""] + rest else [[s[0]] + rest[0]] + rest[1..]
  }

  lemma {:induction false} SplitWithoutSpace(t: string)
    requires ' ' !in t
    ensures SplitOnSpace(t) == [t]
    decreases |t|
  {
    if t != [] {
      SplitWithoutSpace(t[1..]);
      assert [t[0]] + t[1..] == t;
    }
  }

  lemma {:induction false} SplitAfterToken(t: string, u: string)
    requires ' ' !in t
    ensures SplitOnSpace(t + " " + u) == [t] + SplitOnSpace(u)
    decreases |t|
  {
    var s := t + " " + u;
    if t == [] {
      assert s[1..] == u;
    } else {
      assert s[1..] == t[1..] + " " + u;
      SplitAfterToken(t[1..], u);
      assert [t[0]] + t[1..] == t;
    }
  }

  /** Joining two non-empty runs of tokens is joining each run and putting
      one space between them: the separator goes between neighbours only. */
  lemma {:induction false} JoinAppend(a: seq<string>, b: seq<string>)
    requires |a| >= 1 && |b| >= 1
    ensures Join(a + b) == Join(a) + " " + Join(b)
    decreases |a|
  {
    if |a| == 1 {
      assert (a + b)[1..] == b;
    } else {
      JoinAppend(a[1..], b);
      assert (a + b)[1..] == a[1..] + b;
    }
  }

  /** Joining tokens that hold no space and splitting on spaces gives the tokens back. */
  lemma {:induction false} SplitJoin(tokens: seq<string>)
    requires |tokens| >= 1
    requires forall k :: 0 <= k < |tokens| ==> ' ' !in tokens[k]
    ensures SplitOnSpace(Join(tokens)) == tokens
    decreases |tokens|
  {
    if |tokens| == 1 {
      SplitWithoutSpace(tokens[0]);
    } else {
      SplitJoin(tokens[1..]);
      SplitAfterToken(tokens[0], Join(tokens[1..]));
      assert [tokens[0]] + tokens[1..] == tokens;
    }
  }

  /** Splitting on spaces and joining with spaces gives the text back. */
  lemma {:induction false} JoinSplit(s: string)
    ensures Join(SplitOnSpace(s)) == s
    decreases |s|
  {
    if s != [] {
      var rest := SplitOnSpace(s[1..]);
      JoinSplit(s[1..]);
      if s[0] == ' ' {
        assert ([""] + rest)[1..] == rest;
      } else {
        var r := [[s[0]] + rest[0]] + rest[1..];
        if |rest| > 1 {
          assert r[1..] == rest[1..];
          assert Join(rest) == rest[0] + " " + Join(rest[1..]);
        }
        assert [s[0]] + s[1..] == s;
      }
    }
  }

  /** Decimal digits of `n`, as an f-string renders an `int`. */
  function NatToString(n: nat): (r: string)
    ensures |r| >= 1
    ensures forall k :: 0 <= k < |r| ==> '0' <= r[k] <= '9'
  {
    var digit := ('0' as int + n % 10) as char;
    if n < 10 then [digit] else NatToString(n / 10) + [digit]
  }

  /** The number a string of decimal digits denotes. */
  function DigitsValue(s: string): nat
    requires forall k :: 0 <= k < |s| ==> '0' <= s[k] <= '9'
  {
    if s == [] then 0 else 10 * DigitsValue(s[..|s| - 1]) + (s[|s| - 1] as int - '0' as int)
  }

  /** The digits read back as the number they were made from. */
  lemma {:induction false} NatToStringValue(n: nat)
    ensures DigitsValue(NatToString(n)) == n
  {
    var r := NatToString(n);
    if n >= 10 {
      NatToStringValue(n / 10);
      assert r[..|r| - 1] == NatToString(n / 10);
    }
  }

  /** Different numbers render differently. */
  lemma NatToStringInjective(m: nat, n: nat)
    ensures NatToString(m) == NatToString(n) <==> m == n
  {
    NatToStringValue(m);
    NatToStringValue(n);
  }
}
