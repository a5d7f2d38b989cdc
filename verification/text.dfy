/**
 * String operations of the Go and Java standard libraries that the samples
 * rely on, each written out with the semantics of the library call it stands
 * for: prefix and infix tests, splitting on one separator character, joining,
 * replacing every occurrence of a pattern, trimming, ASCII lower-casing and
 * byte-wise lexicographic sorting.
 */
module Text {

  /** `s` starts with `p` (Go `strings.HasPrefix`, Java `String.startsWith`). */
  predicate HasPrefix(s: string, p: string) {
    |p| <= |s| && s[..|p|] == p
  }

  /** `s` ends with `p` (Go `strings.HasSuffix`). */
  predicate HasSuffix(s: string, p: string) {
    |p| <= |s| && s[|s| - |p|..] == p
  }

  /** `s` without the prefix `p`, or `s` itself when it does not start with `p` (Go `strings.TrimPrefix`). */
  function TrimPrefix(s: string, p: string): (r: string)
    ensures HasPrefix(s, p) ==> s == p + r
    ensures !HasPrefix(s, p) ==> r == s
  {
    if HasPrefix(s, p) then s[|p|..] else s
  }

  /** `t` occurs somewhere in `s` (Go `strings.Contains`). */
  predicate Contains(s: string, t: string)
    decreases |s|
  {
    HasPrefix(s, t) || (|s| > 0 && Contains(s[1..], t))
  }

  /** A string contains every string that is placed inside it. */
  lemma {:induction false} ContainsInfix(a: string, t: string, b: string)
    ensures Contains(a + t + b, t)
    decreases |a|
  {
    if |a| == 0 {
      assert a + t + b == t + b;
      assert (t + b)[..|t|] == t;
    } else {
      assert (a + t + b)[1..] == a[1..] + t + b;
      ContainsInfix(a[1..], t, b);
    }
  }

  // ---------------------------------------------------------------------
  // Splitting on one separator character and joining back
  // ---------------------------------------------------------------------

  /** Position of the first `c` in `s`, or `|s|` when there is none. */
  function IndexOf(s: string, c: char): (i: nat)
    ensures i <= |s|
    ensures i < |s| ==> s[i] == c
    ensures forall j :: 0 <= j < i ==> s[j] != c
    decreases |s|
  {
    if |s| == 0 || s[0] == c then 0 else 1 + IndexOf(s[1..], c)
  }

  /** The first `c` in `a + [c] + b` is the one after `a` when `a` has none. */
  lemma IndexOfAfter(a: string, c: char, b: string)
    requires c !in a
    ensures IndexOf(a + [c] + b, c) == |a|
  {
    var s := a + [c] + b;
    assert s[|a|] == c;
    assert forall j :: 0 <= j < |a| ==> s[j] == a[j];
  }

  /** Concatenation of `parts` with `sep` between neighbours (Go `strings.Join`). */
  function Join(parts: seq<string>, sep: char): string
    decreases |parts|
  {
    if |parts| == 0 then ""
    else if |parts| == 1 then parts[0]
    else parts[0] + [sep] + Join(parts[1..], sep)
  }

  /** Every part occurs in the joined text. */
  lemma {:induction false} JoinContains(parts: seq<string>, sep: char, i: nat)
    requires i < |parts|
    ensures Contains(Join(parts, sep), parts[i])
    decreases |parts|
  {
    if |parts| > 1 {
      var rest := Join(parts[1..], sep);
      if i == 0 {
        ContainsInfix([], parts[0], [sep] + rest);
        assert [] + parts[0] + ([sep] + rest) == Join(parts, sep);
      } else {
        JoinContains(parts[1..], sep, i - 1);
        ContainsAfter(parts[0] + [sep], rest, parts[i]);
      }
    } else {
      ContainsInfix([], parts[0], []);
      assert [] + parts[0] + [] == parts[0];
    }
  }

  /** Text found in `b` is found in `a + b`. */
  lemma {:induction false} ContainsAfter(a: string, b: string, t: string)
    requires Contains(b, t)
    ensures Contains(a + b, t)
    decreases |a|
  {
    if |a| > 0 {
      assert (a + b)[1..] == a[1..] + b;
      ContainsAfter(a[1..], b, t);
    } else {
      assert a + b == b;
    }
  }

  /** Text found in `a` is found in `a + b`. */
  lemma {:induction false} ContainsBefore(a: string, b: string, t: string)
    requires Contains(a, t)
    ensures Contains(a + b, t)
    decreases |a|
  {
    if HasPrefix(a, t) {
      assert (a + b)[..|t|] == a[..|t|];
    } else {
      assert (a + b)[1..] == a[1..] + b;
      ContainsBefore(a[1..], b, t);
    }
  }

  /**
   * The fields of `s` between occurrences of `sep`, empty fields included
   * (Go `strings.Split` with a one-character separator). Joining the fields
   * back with `sep` gives `s` again.
   */
  function Split(s: string, sep: char): (fields: seq<string>)
    ensures |fields| >= 1
    ensures forall k :: 0 <= k < |fields| ==> sep !in fields[k]
    ensures Join(fields, sep) == s
    decreases |s|
  {
    var i := IndexOf(s, sep);
    if i == |s| then [s]
    else
      var rest := Split(s[i + 1..], sep);
      assert ([s[..i]] + rest)[1..] == rest;
      assert s == s[..i] + [sep] + s[i + 1..];
      [s[..i]] + rest
  }

  /** A separator-free first field is split off at the first separator. */
  lemma SplitCons(a: string, sep: char, b: string)
    requires sep !in a
    ensures Split(a + [sep] + b, sep) == [a] + Split(b, sep)
  {
    var s := a + [sep] + b;
    IndexOfAfter(a, sep, b);
    assert s[..|a|] == a;
    assert s[|a| + 1..] == b;
  }

  /** Splitting a join of separator-free fields recovers exactly those fields. */
  lemma {:induction false} SplitJoin(parts: seq<string>, sep: char)
    requires |parts| >= 1
    requires forall k :: 0 <= k < |parts| ==> sep !in parts[k]
    ensures Split(Join(parts, sep), sep) == parts
    decreases |parts|
  {
    if |parts| > 1 {
      SplitCons(parts[0], sep, Join(parts[1..], sep));
      SplitJoin(parts[1..], sep);
      assert parts == [parts[0]] + parts[1..];
    } else {
      assert IndexOf(parts[0], sep) == |parts[0]|;
    }
  }

  /** Joining two non-empty lists puts one separator between the two joins. */
  lemma {:induction false} JoinAppend(a: seq<string>, b: seq<string>, sep: char)
    requires |a| >= 1 && |b| >= 1
    ensures Join(a + b, sep) == Join(a, sep) + [sep] + Join(b, sep)
    decreases |a|
  {
    if |a| > 1 {
      assert (a + b)[1..] == a[1..] + b;
      JoinAppend(a[1..], b, sep);
    } else {
      assert (a + b)[1..] == b;
    }
  }

  /** Joining separator-free lines and ending the text with a separator splits back into the lines and one empty field. */
  lemma SplitTerminated(lines: seq<string>, sep: char)
    requires |lines| >= 1
    requires forall k :: 0 <= k < |lines| ==> sep !in lines[k]
    ensures Split(Join(lines, sep) + [sep], sep) == lines + [""]
  {
    JoinAppend(lines, [""], sep);
    assert Join(lines + [""], sep) == Join(lines, sep) + [sep] + "";
    assert Join(lines, sep) + [sep] + "" == Join(lines, sep) + [sep];
    SeparatorFreeAppend(lines, [""], sep);
    SplitJoin(lines + [""], sep);
  }

  /** Splitting at one separator splits each side independently. */
  lemma SplitAppend(a: string, sep: char, b: string)
    ensures Split(a + [sep] + b, sep) == Split(a, sep) + Split(b, sep)
  {
    var fa, fb := Split(a, sep), Split(b, sep);
    JoinAppend(fa, fb, sep);
    SeparatorFreeAppend(fa, fb, sep);
    SplitJoin(fa + fb, sep);
  }

  lemma SeparatorFreeAppend(fa: seq<string>, fb: seq<string>, sep: char)
    requires forall k :: 0 <= k < |fa| ==> sep !in fa[k]
    requires forall k :: 0 <= k < |fb| ==> sep !in fb[k]
    ensures forall k :: 0 <= k < |fa + fb| ==> sep !in (fa + fb)[k]
  {
    forall k | |fa| <= k < |fa + fb|
      ensures sep !in (fa + fb)[k]
    {
      assert (fa + fb)[k] == fb[k - |fa|];
    }
  }

  /** A string without the separator is a single field. */
  lemma SplitNoSeparator(s: string, sep: char)
    requires sep !in s
    ensures Split(s, sep) == [s]
  {
    assert IndexOf(s, sep) == |s|;
  }

  /** The text before the first `sep`, or all of `s` (Go `strings.Split(s, sep)[0]`). */
  function FirstField(s: string, sep: char): string {
    Split(s, sep)[0]
  }

  /** The first field is the separator-free text in front of the first separator. */
  lemma FirstFieldOf(a: string, sep: char, b: string)
    requires sep !in a
    ensures FirstField(a + [sep] + b, sep) == a
    ensures FirstField(a, sep) == a
  {
    SplitAppend(a, sep, b);
    SplitNoSeparator(a, sep);
  }

  /** The text after the last `sep`, or all of `s`. */
  function LastField(s: string, sep: char): string {
    var fields := Split(s, sep);
    fields[|fields| - 1]
  }

  /** The last field is the separator-free text behind the last separator. */
  lemma LastFieldOf(a: string, sep: char, b: string)
    requires sep !in b
    ensures LastField(a + [sep] + b, sep) == b
  {
    SplitAppend(a, sep, b);
    SplitNoSeparator(b, sep);
  }

  // ---------------------------------------------------------------------
  // Replacing every occurrence of a pattern
  // ---------------------------------------------------------------------

  /**
   * `s` with every non-overlapping occurrence of `pat`, scanning from the
   * left, replaced by `rep` (Go `strings.Replace(s, pat, rep, -1)`).
   */
  function ReplaceAll(s: string, pat: string, rep: string): string
    requires |pat| > 0
    decreases |s|
  {
    if |s| == 0 then ""
    else if HasPrefix(s, pat) then rep + ReplaceAll(s[|pat|..], pat, rep)
    else [s[0]] + ReplaceAll(s[1..], pat, rep)
  }

  /** Replacing a pattern that does not occur changes nothing. */
  lemma {:induction false} ReplaceAbsent(s: string, pat: string, rep: string)
    requires |pat| > 0
    requires !Contains(s, pat)
    ensures ReplaceAll(s, pat, rep) == s
    decreases |s|
  {
    if |s| > 0 {
      ReplaceAbsent(s[1..], pat, rep);
      assert s == [s[0]] + s[1..];
    }
  }

  /** Replacing cannot introduce a character that neither the input nor the replacement holds. */
  lemma {:induction false} ReplaceKeepsOut(s: string, pat: string, rep: string, c: char)
    requires |pat| > 0 && c !in s && c !in rep
    ensures c !in ReplaceAll(s, pat, rep)
    decreases |s|
  {
    if |s| > 0 {
      if HasPrefix(s, pat) {
        ReplaceKeepsOut(s[|pat|..], pat, rep, c);
      } else {
        ReplaceKeepsOut(s[1..], pat, rep, c);
      }
    }
  }

  /** No character of `t` is a character of `u`. */
  predicate Disjoint(t: string, u: string) {
    forall i, j :: 0 <= i < |t| && 0 <= j < |u| ==> t[i] != u[j]
  }

  /**
   * When a replacement starts with text that cannot be the first character
   * of `rep`, that text was copied unchanged from the input.
   */
  lemma {:induction false} ReplaceCopiesPrefix(t: string, pat: string, rep: string, w: string)
    requires |pat| > 0 && |rep| > 0
    requires forall k :: 0 <= k < |w| ==> w[k] != rep[0]
    requires HasPrefix(ReplaceAll(t, pat, rep), w)
    ensures HasPrefix(t, w)
    decreases |w|
  {
    if |w| > 0 {
      var r := ReplaceAll(t, pat, rep);
      assert r[0] == w[0];
      assert |t| > 0;
      assert !HasPrefix(t, pat);
      var r' := ReplaceAll(t[1..], pat, rep);
      assert r == [t[0]] + r';
      assert r'[..|w| - 1] == w[1..];
      ReplaceCopiesPrefix(t[1..], pat, rep, w[1..]);
      assert t[..|w|] == [t[0]] + t[1..][..|w| - 1];
    }
  }

  /**
   * Replacing a pattern by a non-empty text that shares no character with it
   * leaves no occurrence of the pattern behind.
   */
  lemma {:induction false} ReplaceRemovesAll(s: string, pat: string, rep: string)
    requires |pat| > 0 && |rep| > 0
    requires Disjoint(pat, rep)
    ensures !Contains(ReplaceAll(s, pat, rep), pat)
    decreases |s|
  {
    if |s| == 0 {
      assert !HasPrefix("", pat);
    } else if HasPrefix(s, pat) {
      ReplaceRemovesAll(s[|pat|..], pat, rep);
      NoOccurrenceAfterNew(rep, ReplaceAll(s[|pat|..], pat, rep), pat);
    } else {
      var r' := ReplaceAll(s[1..], pat, rep);
      ReplaceRemovesAll(s[1..], pat, rep);
      var r := [s[0]] + r';
      assert r[1..] == r';
      if HasPrefix(r, pat) {
        assert r'[..|pat| - 1] == pat[1..];
        ReplaceCopiesPrefix(s[1..], pat, rep, pat[1..]);
        assert false;
      }
    }
  }

  /** No occurrence of `pat` can start inside a text disjoint from it. */
  lemma {:induction false} NoOccurrenceAfterNew(rep: string, rest: string, pat: string)
    requires |pat| > 0
    requires Disjoint(pat, rep)
    requires !Contains(rest, pat)
    ensures !Contains(rep + rest, pat)
    decreases |rep|
  {
    if |rep| == 0 {
      assert rep + rest == rest;
    } else {
      var s := rep + rest;
      assert s[0] == rep[0] && pat[0] != rep[0];
      assert !HasPrefix(s, pat);
      assert s[1..] == rep[1..] + rest;
      NoOccurrenceAfterNew(rep[1..], rest, pat);
    }
  }

  // ---------------------------------------------------------------------
  // Trimming
  // ---------------------------------------------------------------------

  /** `s` without its trailing run of `c` (Go `strings.TrimRight(s, string(c))`). */
  function TrimRightChar(s: string, c: char): (r: string)
    ensures HasPrefix(s, r)
    ensures |r| > 0 ==> r[|r| - 1] != c
    ensures forall k :: |r| <= k < |s| ==> s[k] == c
    decreases |s|
  {
    if |s| > 0 && s[|s| - 1] == c then TrimRightChar(s[..|s| - 1], c) else s
  }

  /** Go's `unicode.IsSpace`. */
  predicate IsSpace(c: char) {
    var n := c as int;
    n == 0x09 || n == 0x0A || n == 0x0B || n == 0x0C || n == 0x0D || n == 0x20
    || n == 0x85 || n == 0xA0 || n == 0x1680 || (0x2000 <= n <= 0x200A)
    || n == 0x2028 || n == 0x2029 || n == 0x202F || n == 0x205F || n == 0x3000
  }

  /** `s` without its leading white space. */
  function TrimLeftSpace(s: string): (r: string)
    ensures HasSuffix(s, r)
    ensures |r| > 0 ==> !IsSpace(r[0])
    ensures forall k :: 0 <= k < |s| - |r| ==> IsSpace(s[k])
    decreases |s|
  {
    if |s| > 0 && IsSpace(s[0]) then
      var r := TrimLeftSpace(s[1..]);
      assert forall k :: 1 <= k < |s| ==> s[k] == s[1..][k - 1];
      r
    else s
  }

  /** `s` without its trailing white space. */
  function TrimRightSpace(s: string): (r: string)
    ensures HasPrefix(s, r)
    ensures |r| > 0 ==> !IsSpace(r[|r| - 1])
    ensures forall k :: |r| <= k < |s| ==> IsSpace(s[k])
    decreases |s|
  {
    if |s| > 0 && IsSpace(s[|s| - 1]) then TrimRightSpace(s[..|s| - 1]) else s
  }

  /** `s` without leading and trailing white space (Go `strings.TrimSpace`). */
  function TrimSpace(s: string): string {
    TrimRightSpace(TrimLeftSpace(s))
  }

  /** A string without white space is its own trim. */
  lemma TrimSpaceNoSpace(s: string)
    requires forall k :: 0 <= k < |s| ==> !IsSpace(s[k])
    ensures TrimSpace(s) == s
  {
    if |s| > 0 {
      assert !IsSpace(s[0]) && !IsSpace(s[|s| - 1]);
    }
  }

  // ---------------------------------------------------------------------
  // Case
  // ---------------------------------------------------------------------

  /** The ASCII lower-case form of `c`; every other character is unchanged. */
  function LowerChar(c: char): char {
    if 'A' <= c <= 'Z' then (c as int + 32) as char else c
  }

  /** The ASCII upper-case form of `c`; every other character is unchanged. */
  function UpperChar(c: char): char {
    if 'a' <= c <= 'z' then (c as int - 32) as char else c
  }

  /** Case mapping on one character: each mapping absorbs the other and neither moves a non-letter. */
  lemma CaseChar(c: char)
    ensures UpperChar(UpperChar(c)) == UpperChar(c) && UpperChar(LowerChar(c)) == UpperChar(c)
    ensures LowerChar(LowerChar(c)) == LowerChar(c) && LowerChar(UpperChar(c)) == LowerChar(c)
    ensures (UpperChar(c) == '-' <==> c == '-') && (LowerChar(c) == '-' <==> c == '-')
  {
  }

  /** `s` with its ASCII letters lower-cased (Go `strings.ToLower` on ASCII text). */
  function ToLower(s: string): (r: string)
    ensures |r| == |s|
  {
    seq(|s|, i requires 0 <= i < |s| => LowerChar(s[i]))
  }

  // ---------------------------------------------------------------------
  // Byte-wise lexicographic order and sorting (Go `sort.Strings`)
  // ---------------------------------------------------------------------

  /**
   * `a` sorts no later than `b`: it is a prefix of `b` or it has the smaller
   * character at the first difference. On valid text this is Go's byte-wise
   * string order, because UTF-8 preserves code point order.
   */
  predicate LessEq(a: string, b: string)
    decreases |a|
  {
    |a| == 0 || (|b| > 0 && (a[0] < b[0] || (a[0] == b[0] && LessEq(a[1..], b[1..]))))
  }

  lemma {:induction false} LessEqReflexive(a: string)
    ensures LessEq(a, a)
    decreases |a|
  {
    if |a| > 0 {
      LessEqReflexive(a[1..]);
    }
  }

  lemma {:induction false} LessEqTotal(a: string, b: string)
    ensures LessEq(a, b) || LessEq(b, a)
    decreases |a|
  {
    if |a| > 0 && |b| > 0 && a[0] == b[0] {
      LessEqTotal(a[1..], b[1..]);
    }
  }

  lemma {:induction false} LessEqAntisymmetric(a: string, b: string)
    requires LessEq(a, b) && LessEq(b, a)
    ensures a == b
    decreases |a|
  {
    if |a| > 0 {
      LessEqAntisymmetric(a[1..], b[1..]);
      assert a == [a[0]] + a[1..];
      assert b == [b[0]] + b[1..];
    }
  }

  lemma {:induction false} LessEqTransitive(a: string, b: string, c: string)
    requires LessEq(a, b) && LessEq(b, c)
    ensures LessEq(a, c)
    decreases |a|
  {
    if |a| > 0 && a[0] == b[0] && b[0] == c[0] {
      LessEqTransitive(a[1..], b[1..], c[1..]);
    }
  }

  /** The strings of `s` appear in ascending order. */
  predicate Sorted(s: seq<string>) {
    forall i, j :: 0 <= i < j < |s| ==> LessEq(s[i], s[j])
  }

  /** `x` placed into the sorted `s` in front of the first element it precedes. */
  function Insert(x: string, s: seq<string>): (r: seq<string>)
    requires Sorted(s)
    ensures Sorted(r)
    ensures multiset(r) == multiset(s) + multiset{x}
    decreases |s|
  {
    if |s| == 0 then [x]
    else if LessEq(x, s[0]) then
      InsertFront(x, s);
      [x] + s
    else
      LessEqTotal(x, s[0]);
      var r' := Insert(x, s[1..]);
      assert s == [s[0]] + s[1..];
      InsertBehind(s[0], x, s[1..], r');
      [s[0]] + r'
  }

  /** A string no later than the head of a sorted list can go in front of it. */
  lemma InsertFront(x: string, s: seq<string>)
    requires Sorted(s) && |s| > 0 && LessEq(x, s[0])
    ensures Sorted([x] + s)
  {
    forall j | 0 < j < |s| + 1
      ensures LessEq(([x] + s)[0], ([x] + s)[j])
    {
      if j > 1 {
        LessEqTransitive(x, s[0], s[j - 1]);
      }
    }
  }

  /** The head of a sorted list stays in front of a sorted rearrangement of its tail plus `x`. */
  lemma InsertBehind(h: string, x: string, tail: seq<string>, r': seq<string>)
    requires Sorted([h] + tail) && LessEq(h, x)
    requires Sorted(r') && multiset(r') == multiset(tail) + multiset{x}
    ensures Sorted([h] + r')
  {
    forall j | 0 <= j < |r'|
      ensures LessEq(h, r'[j])
    {
      assert r'[j] in multiset(r');
      if r'[j] != x {
        assert r'[j] in multiset(tail);
        var k :| 0 <= k < |tail| && tail[k] == r'[j];
        assert ([h] + tail)[k + 1] == tail[k];
        assert LessEq(([h] + tail)[0], ([h] + tail)[k + 1]);
      }
    }
  }

  /** `s` in ascending order (insertion sort). */
  function Sort(s: seq<string>): (r: seq<string>)
    ensures Sorted(r)
    ensures multiset(r) == multiset(s)
    decreases |s|
  {
    if |s| == 0 then []
    else
      assert s == [s[0]] + s[1..];
      Insert(s[0], Sort(s[1..]))
  }

  /** The head of a sorted list sorts no later than any of its elements. */
  lemma SortedHeadIsLeast(a: seq<string>, x: string)
    requires Sorted(a) && x in a
    ensures LessEq(a[0], x)
  {
    var i :| 0 <= i < |a| && a[i] == x;
    if i == 0 {
      LessEqReflexive(x);
    }
  }

  /** A list has only one ascending arrangement. */
  lemma {:induction false} SortedUnique(a: seq<string>, b: seq<string>)
    requires Sorted(a) && Sorted(b)
    requires multiset(a) == multiset(b)
    ensures a == b
    decreases |a|
  {
    assert |a| == |multiset(a)|;
    assert |b| == |multiset(b)|;
    if |a| > 0 {
      assert a[0] in multiset(b);
      assert b[0] in multiset(a);
      SortedHeadIsLeast(a, b[0]);
      SortedHeadIsLeast(b, a[0]);
      LessEqAntisymmetric(a[0], b[0]);
      assert a == [a[0]] + a[1..];
      assert b == [b[0]] + b[1..];
      assert multiset(a[1..]) == multiset(a) - multiset{a[0]};
      assert multiset(b[1..]) == multiset(b) - multiset{b[0]};
      SortedUnique(a[1..], b[1..]);
    }
  }

  /** Sorting depends only on the multiset of its input, not on its order. */
  lemma SortPermutation(a: seq<string>, b: seq<string>)
    requires multiset(a) == multiset(b)
    ensures Sort(a) == Sort(b)
  {
    SortedUnique(Sort(a), Sort(b));
  }
}
