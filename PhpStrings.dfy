/** The handful of PHP string built-ins the theme core relies on: `ltrim`,
    `rtrim`, `str_replace` and `basename`, each with a contract that says what
    the built-in computes independently of how it is computed here. */
module PhpStrings {

  /** All characters of `s` belong to `cs`. */
  predicate AllIn(s: string, cs: set<char>)
  {
    forall i :: 0 <= i < |s| ==> s[i] in cs
  }

  /** Every character of `t` also occurs somewhere in `s`. */
  predicate CharsFrom(t: string, s: string)
  {
    forall i :: 0 <= i < |t| ==> t[i] in s
  }

  /** `ltrim($s, $chars)`: drop the longest prefix made only of characters of `cs`. */
  function LTrim(s: string, cs: set<char>): (r: string)
    ensures |r| <= |s| && r == s[|s| - |r|..]
    ensures AllIn(s[..|s| - |r|], cs)
    ensures r == [] || r[0] !in cs
  {
    if s != [] && s[0] in cs then
      var r := LTrim(s[1..], cs);
      assert s[..|s| - |r|] == [s[0]] + s[1..][..|s| - 1 - |r|];
      r
    else s
  }

  /** `rtrim($s, $chars)`: drop the longest suffix made only of characters of `cs`. */
  function RTrim(s: string, cs: set<char>): (r: string)
    ensures |r| <= |s| && r == s[..|r|]
    ensures AllIn(s[|r|..], cs)
    ensures r == [] || r[|r| - 1] !in cs
  {
    if s != [] && s[|s| - 1] in cs then RTrim(s[..|s| - 1], cs) else s
  }

  /** Whether `needle` occurs in `s` starting at index `i`. */
  predicate OccursAt(s: string, needle: string, i: nat)
  {
    i + |needle| <= |s| && s[i..i + |needle|] == needle
  }

  /** `str_replace($needle, $rep, $s)` with one needle: every non-overlapping
      occurrence, found scanning left to right, is replaced; an empty needle
      leaves the subject as it is. */
  function ReplaceAll(s: string, needle: string, rep: string): (r: string)
    ensures rep == [] ==> |r| <= |s|
    decreases |s|
  {
    if needle == [] || |s| < |needle| then s
    else if s[..|needle|] == needle then rep + ReplaceAll(s[|needle|..], needle, rep)
    else [s[0]] + ReplaceAll(s[1..], needle, rep)
  }

  /** Replacing with the empty string only removes characters. */
  lemma {:induction false} ReplaceAllOnlyRemoves(s: string, needle: string)
    ensures CharsFrom(ReplaceAll(s, needle, ""), s)
    decreases |s|
  {
    var r := ReplaceAll(s, needle, "");
    if needle == [] || |s| < |needle| {
    } else if s[..|needle|] == needle {
      var tail := s[|needle|..];
      ReplaceAllOnlyRemoves(tail, needle);
      forall i | 0 <= i < |r| ensures r[i] in s {
        assert r[i] in tail;
      }
    } else {
      var tail := s[1..];
      ReplaceAllOnlyRemoves(tail, needle);
      forall i | 0 <= i < |r| ensures r[i] in s {
        if i > 0 { assert r[i] == ReplaceAll(tail, needle, "")[i - 1]; assert r[i] in tail; }
      }
    }
  }

  /** A subject in which the needle never occurs is returned unchanged. */
  lemma {:induction false} ReplaceAllWithoutMatch(s: string, needle: string, rep: string)
    requires forall i: nat :: !OccursAt(s, needle, i)
    ensures ReplaceAll(s, needle, rep) == s
    decreases |s|
  {
    if needle == [] || |s| < |needle| {
    } else {
      assert !OccursAt(s, needle, 0);
      forall i: nat ensures !OccursAt(s[1..], needle, i) {
        if OccursAt(s[1..], needle, i) {
          assert s[i + 1..i + 1 + |needle|] == s[1..][i..i + |needle|];
          assert OccursAt(s, needle, i + 1);
        }
      }
      ReplaceAllWithoutMatch(s[1..], needle, rep);
    }
  }

  /** The leftmost occurrence of the needle is replaced, everything before it
      is kept, and the scan resumes right after it. */
  lemma {:induction false} ReplaceAllFirstOccurrence(s: string, needle: string, rep: string, i: nat)
    requires needle != [] && OccursAt(s, needle, i)
    requires forall j: nat :: j < i ==> !OccursAt(s, needle, j)
    ensures ReplaceAll(s, needle, rep) == s[..i] + rep + ReplaceAll(s[i + |needle|..], needle, rep)
    decreases i, 1
  {
    if i == 0 {
      ReplaceAllAtStart(s, needle, rep);
      assert s[..0] + rep == rep;
    } else {
      ReplaceAllFirstOccurrenceLater(s, needle, rep, i);
    }
  }

  /** The case of `ReplaceAllFirstOccurrence` where the occurrence is not at
      the head: the head is kept and the tail is handled by induction. */
  lemma {:induction false} ReplaceAllFirstOccurrenceLater(s: string, needle: string, rep: string, i: nat)
    requires needle != [] && OccursAt(s, needle, i) && 0 < i
    requires forall j: nat :: j < i ==> !OccursAt(s, needle, j)
    ensures ReplaceAll(s, needle, rep) == s[..i] + rep + ReplaceAll(s[i + |needle|..], needle, rep)
    decreases i, 0
  {
    var t := s[1..];
    OccursAtTail(s, needle, i - 1);
    NoEarlierOccurrenceInTail(s, needle, i);
    ReplaceAllFirstOccurrence(t, needle, rep, i - 1);
    TailOfTail(s, i + |needle|);
    ReplaceAllKeepsHead(s, needle, rep);
    ConsPrefix(s, rep, ReplaceAll(s[i + |needle|..], needle, rep), i);
  }

  /** The bookkeeping of one step of `ReplaceAllFirstOccurrence`: the head
      put back in front of the tail's prefix gives the prefix of `s`. */
  lemma ConsPrefix(s: string, rep: string, rest: string, i: nat)
    requires 0 < i <= |s|
    ensures [s[0]] + (s[1..][..i - 1] + rep + rest) == s[..i] + rep + rest
  {
    assert [s[0]] + s[1..][..i - 1] == s[..i];
  }

  /** Dropping one element and then `k - 1` more is dropping `k`. */
  lemma TailOfTail(s: string, k: nat)
    requires 0 < k <= |s|
    ensures s[1..][k - 1..] == s[k..]
  {
  }

  /** An occurrence in `s[1..]` is an occurrence in `s` one place later. */
  lemma OccursAtTail(s: string, needle: string, j: nat)
    requires s != []
    ensures OccursAt(s[1..], needle, j) <==> OccursAt(s, needle, j + 1)
  {
    if j + 1 + |needle| <= |s| {
      assert s[1..][j..j + |needle|] == s[j + 1..j + 1 + |needle|];
    }
  }

  /** Without an occurrence before `i` in `s`, there is none before `i - 1` in `s[1..]`. */
  lemma NoEarlierOccurrenceInTail(s: string, needle: string, i: nat)
    requires s != [] && 0 < i
    requires forall j: nat :: j < i ==> !OccursAt(s, needle, j)
    ensures forall j: nat :: j < i - 1 ==> !OccursAt(s[1..], needle, j)
  {
    forall j: nat | j < i - 1 ensures !OccursAt(s[1..], needle, j) {
      OccursAtTail(s, needle, j);
    }
  }

  /** An occurrence starts with the needle's first two characters. */
  lemma OccursAtStart(s: string, needle: string, i: nat)
    requires |needle| >= 2
    ensures OccursAt(s, needle, i) ==> s[i] == needle[0] && s[i + 1] == needle[1]
  {
    if OccursAt(s, needle, i) {
      assert s[i..i + |needle|][1] == s[i + 1];
    }
  }

  /** `str_replace([$n0, $n1, …], $rep, $s)`: each needle is replaced
      throughout the result of the previous one, in array order. */
  function StrReplace(needles: seq<string>, rep: string, s: string): (r: string)
    ensures rep == [] ==> |r| <= |s| && CharsFrom(r, s)
    decreases |needles|
  {
    if needles == [] then s
    else
      var once := ReplaceAll(s, needles[0], rep);
      var r := StrReplace(needles[1..], rep, once);
      assert rep == [] ==> CharsFrom(r, s) by {
        if rep == [] {
          ReplaceAllOnlyRemoves(s, needles[0]);
          forall i | 0 <= i < |r| ensures r[i] in s {
            assert r[i] in once;
            var j :| 0 <= j < |once| && once[j] == r[i];
          }
        }
      }
      r
  }

  /** The part of `s` after its last `'/'`: the longest suffix free of `'/'`. */
  function AfterLastSlash(s: string): (r: string)
    ensures |r| <= |s| && r == s[|s| - |r|..]
    ensures '/' !in r
    ensures |r| < |s| ==> s[|s| - |r| - 1] == '/'
  {
    if s == [] || s[|s| - 1] == '/' then []
    else
      var r := AfterLastSlash(s[..|s| - 1]) + [s[|s| - 1]];
      assert r == s[|s| - |r|..];
      r
  }

  /** `basename($p)` on a POSIX system: trailing slashes are ignored, then
      the component after the last `'/'` is returned. */
  function Basename(p: string): (r: string)
    ensures '/' !in r
    ensures '/' !in p ==> r == p
  {
    AfterLastSlash(RTrim(p, {'/'}))
  }

  /** A match can begin only at a character equal to the needle's first one,
      so a prefix without that character is copied through untouched. */
  lemma {:induction false} ReplaceAllSkipsPrefix(p: string, t: string, needle: string, rep: string)
    requires needle != [] && needle[0] !in p
    ensures ReplaceAll(p + t, needle, rep) == p + ReplaceAll(t, needle, rep)
  {
    if p != [] {
      var s := p + t;
      if |s| >= |needle| {
        assert s[..|needle|][0] == p[0];
      }
      assert s[1..] == p[1..] + t;
      ReplaceAllSkipsPrefix(p[1..], t, needle, rep);
    } else {
      assert p + t == t;
    }
  }

  /** A subject that starts with the needle has that occurrence replaced. */
  lemma ReplaceAllAtHead(needle: string, t: string, rep: string)
    requires needle != []
    ensures ReplaceAll(needle + t, needle, rep) == rep + ReplaceAll(t, needle, rep)
  {
    assert (needle + t)[..|needle|] == needle;
    assert (needle + t)[|needle|..] == t;
  }

  /** A subject in which the needle occurs at the head has that occurrence replaced. */
  lemma ReplaceAllAtStart(s: string, needle: string, rep: string)
    requires needle != [] && OccursAt(s, needle, 0)
    ensures ReplaceAll(s, needle, rep) == rep + ReplaceAll(s[|needle|..], needle, rep)
  {
    assert s[..|needle|] == s[0..|needle|];
  }

  /** Where no match begins at the head, the first character is kept. */
  lemma ReplaceAllKeepsHead(s: string, needle: string, rep: string)
    requires needle != [] && s != [] && !OccursAt(s, needle, 0)
    ensures ReplaceAll(s, needle, rep) == [s[0]] + ReplaceAll(s[1..], needle, rep)
  {
    if |s| < |needle| {
      assert !OccursAt(s[1..], needle, 0);
      assert ReplaceAll(s[1..], needle, rep) == s[1..];
    }
  }

  /** A needle that ends the subject, with no earlier match possible, is removed. */
  lemma ReplaceAllStripsSuffix(stem: string, needle: string)
    requires needle != [] && needle[0] !in stem
    ensures ReplaceAll(stem + needle, needle, "") == stem
  {
    ReplaceAllSkipsPrefix(stem, needle, needle, "");
    ReplaceAllAtHead(needle, [], "");
    assert needle + [] == needle;
  }

  /** A tail shorter than the needle, after a prefix where no match can
      begin, leaves the subject as it is. */
  lemma ReplaceAllShortTail(stem: string, tail: string, needle: string, rep: string)
    requires needle != [] && needle[0] !in stem && |tail| < |needle|
    ensures ReplaceAll(stem + tail, needle, rep) == stem + tail
  {
    ReplaceAllSkipsPrefix(stem, tail, needle, rep);
  }

  /** Two needles are applied one after the other. */
  lemma StrReplacePair(a: string, b: string, rep: string, s: string)
    ensures StrReplace([a, b], rep, s) == ReplaceAll(ReplaceAll(s, a, rep), b, rep)
  {
    var once := ReplaceAll(s, a, rep);
    assert [a, b][1..] == [b];
    assert StrReplace([a, b], rep, s) == StrReplace([b], rep, once);
    assert [b][1..] == [];
    assert StrReplace([b], rep, once) == StrReplace([], rep, ReplaceAll(once, b, rep));
  }

  /** A subject without the needle's first character is left as it is. */
  lemma ReplaceAllUntouched(s: string, needle: string, rep: string)
    requires needle != [] && needle[0] !in s
    ensures ReplaceAll(s, needle, rep) == s
  {
    ReplaceAllSkipsPrefix(s, [], needle, rep);
    assert s + [] == s;
  }

  /** The component after the last slash of `d + "/" + x` is `x`. */
  lemma {:induction false} AfterLastSlashOfPath(d: string, x: string)
    requires '/' !in x
    ensures AfterLastSlash(d + "/" + x) == x
  {
    if x != [] {
      var s := d + "/" + x;
      var init, last := x[..|x| - 1], x[|x| - 1];
      assert x == init + [last];
      assert s[..|s| - 1] == d + "/" + init && s[|s| - 1] == last;
      assert '/' !in init by {
        forall k | 0 <= k < |init| ensures init[k] != '/' { assert init[k] == x[k]; }
      }
      AfterLastSlashOfPath(d, init);
    } else {
      assert d + "/" + x == d + "/";
    }
  }

  /** `basename("dir/file")` is `file` when `file` is a single non-empty component. */
  lemma BasenameOfPath(d: string, x: string)
    requires x != [] && '/' !in x
    ensures Basename(d + "/" + x) == x
  {
    var s := d + "/" + x;
    assert s[|s| - 1] == x[|x| - 1];
    assert RTrim(s, {'/'}) == s;
    AfterLastSlashOfPath(d, x);
  }
}
