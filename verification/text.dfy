/** Python string operations the document pipeline relies on: substring
    search (`t in s`), `str.split(sep)`, `sep.join(parts)` and
    `str.replace(old, new)`, with strings as sequences of characters. */
module Text {
  import opened Options

  /** `t` occurs in `s` starting at index `i`. */
  predicate OccursAt(s: string, t: string, i: int) {
    0 <= i && i + |t| <= |s| && s[i..i + |t|] == t
  }

  /** Python's `t in s`; the empty string occurs in every string. */
  predicate Contains(s: string, t: string) {
    exists i :: 0 <= i <= |s| - |t| && OccursAt(s, t, i)
  }

  lemma ContainsWitness(s: string, t: string, i: nat)
    requires OccursAt(s, t, i)
    ensures Contains(s, t)
  {
  }

  /** An occurrence inside a slice is an occurrence in the whole string. */
  lemma {:induction false} ContainsSlice(s: string, lo: nat, hi: nat, t: string)
    requires lo <= hi <= |s|
    requires Contains(s[lo..hi], t)
    ensures Contains(s, t)
  {
    var i :| 0 <= i <= |s[lo..hi]| - |t| && OccursAt(s[lo..hi], t, i);
    var u := s[lo..hi];
    assert 0 <= i && i + |t| <= |u|;
    var a, b := s[lo + i..lo + i + |t|], u[i..i + |t|];
    forall k | 0 <= k < |t| ensures a[k] == b[k] {
      assert u[i + k] == s[lo + i + k];
    }
    assert a == b;
    ContainsWitness(s, t, lo + i);
  }

  /** An occurrence inside a suffix is an occurrence in the whole string. */
  lemma ContainsSuffix(s: string, lo: nat, t: string)
    requires lo <= |s|
    requires Contains(s[lo..], t)
    ensures Contains(s, t)
  {
    assert s[lo..|s|] == s[lo..];
    ContainsSlice(s, lo, |s|, t);
  }

  /** An occurrence in `[c] + s` is at the front or lies in `s`. */
  lemma ContainsCons(c: char, s: string, t: string)
    ensures Contains([c] + s, t) ==> OccursAt([c] + s, t, 0) || Contains(s, t)
  {
    if Contains([c] + s, t) {
      var i :| 0 <= i <= |[c] + s| - |t| && OccursAt([c] + s, t, i);
      if i > 0 {
        assert s[i - 1..i - 1 + |t|] == ([c] + s)[i..i + |t|];
        ContainsWitness(s, t, i - 1);
      }
    }
  }

  /** The empty string occurs everywhere. */
  lemma ContainsEmpty(s: string)
    ensures Contains(s, "")
  {
    ContainsWitness(s, "", 0);
  }

  /** Searching for a one-character string is membership. */
  lemma ContainsChar(s: string, c: char)
    ensures Contains(s, [c]) <==> c in s
  {
    if c in s {
      var i :| 0 <= i < |s| && s[i] == c;
      assert s[i..i + 1] == [c];
      ContainsWitness(s, [c], i);
    }
    if Contains(s, [c]) {
      var i :| 0 <= i <= |s| - 1 && OccursAt(s, [c], i);
      assert s[i..i + 1][0] == s[i];
    }
  }

  /** Reading single characters off an occurrence. */
  lemma OccursAtChar(x: string, t: string, i: int, j: int)
    ensures OccursAt(x, t, i) && i <= j < i + |t| ==> t[j - i] == x[j]
  {
    if OccursAt(x, t, i) && i <= j < i + |t| {
      assert x[i..i + |t|][j - i] == x[j];
    }
  }

  /** A two-character pattern occurs where both its characters do. */
  lemma OccursAtPair(x: string, t: string, i: int)
    ensures |t| == 2 && 0 <= i && i + 2 <= |x| && x[i] == t[0] && x[i + 1] == t[1] ==> OccursAt(x, t, i)
  {
    if |t| == 2 && 0 <= i && i + 2 <= |x| && x[i] == t[0] && x[i + 1] == t[1] {
      assert x[i..i + 2] == [x[i], x[i + 1]];
    }
  }

  /** Index of the first occurrence of `t` in `s` at or after `k`. */
  function FindFrom(s: string, t: string, k: nat): (r: Option<nat>)
    requires k <= |s|
    ensures r.Some? ==> k <= r.value && OccursAt(s, t, r.value)
    ensures r.Some? ==> forall j :: k <= j < r.value ==> !OccursAt(s, t, j)
    ensures r.None? ==> forall j :: k <= j ==> !OccursAt(s, t, j)
    decreases |s| - k
  {
    if OccursAt(s, t, k) then Some(k)
    else if k == |s| then None
    else FindFrom(s, t, k + 1)
  }

  /** Python's `s.find(t)`, with `None` for -1: the first occurrence. */
  function Find(s: string, t: string): (r: Option<nat>)
    ensures r.Some? ==> OccursAt(s, t, r.value) && forall j :: j < r.value ==> !OccursAt(s, t, j)
    ensures r.None? ==> forall j :: !OccursAt(s, t, j)
  {
    FindFrom(s, t, 0)
  }

  /** `Find` reports an occurrence exactly when there is one. */
  lemma FindSomeIffContains(s: string, t: string)
    ensures Find(s, t).Some? <==> Contains(s, t)
  {
    if Find(s, t).Some? {
      ContainsWitness(s, t, Find(s, t).value);
    }
  }

  /** Index of the last occurrence of the character `c` in `s`. */
  function LastIndexOf(s: string, c: char): (r: Option<nat>)
    ensures r.Some? ==> r.value < |s| && s[r.value] == c
    ensures r.Some? ==> forall j :: r.value < j < |s| ==> s[j] != c
    ensures r.None? <==> c !in s
    decreases |s|
  {
    if |s| == 0 then None
    else if s[|s| - 1] == c then Some(|s| - 1)
    else LastIndexOf(s[..|s| - 1], c)
  }

  /** The last `c` of `p + last` is the one ending `p` when `last` has none. */
  lemma LastIndexAfterPrefix(p: string, last: string, c: char)
    requires |p| > 0 && p[|p| - 1] == c && c !in last
    ensures LastIndexOf(p + last, c) == Some(|p| - 1)
  {
    var s := p + last;
    assert s[|p| - 1] == c;
    forall j | |p| - 1 < j < |s| ensures s[j] != c {
      assert s[j] == last[j - |p|];
    }
  }

  /** Python's `sep.join(parts)`. */
  function Join(sep: string, parts: seq<string>): string
    decreases |parts|
  {
    if |parts| == 0 then ""
    else if |parts| == 1 then parts[0]
    else parts[0] + sep + Join(sep, parts[1..])
  }

  /** Joining onto a longer list appends the separator and the new part. */
  lemma {:induction false} JoinSnoc(sep: string, parts: seq<string>, x: string)
    requires |parts| > 0
    ensures Join(sep, parts + [x]) == Join(sep, parts) + sep + x
    decreases |parts|
  {
    if |parts| == 1 {
      assert parts + [x] == [parts[0], x];
    } else {
      assert (parts + [x])[1..] == parts[1..] + [x];
      JoinSnoc(sep, parts[1..], x);
    }
  }

  /** Python's `s.split(sep)` for a non-empty separator (Python raises
      `ValueError` on an empty one): the pieces between the non-overlapping
      occurrences of `sep`, scanned from the left. */
  function Split(s: string, sep: string): (r: seq<string>)
    requires |sep| > 0
    ensures |r| >= 1
    decreases |s|
  {
    match Find(s, sep)
    case None => [s]
    case Some(i) => [s[..i]] + Split(s[i + |sep|..], sep)
  }

  /** Joining the pieces of a split with the separator gives back the string. */
  lemma {:induction false} SplitRoundTrip(s: string, sep: string)
    requires |sep| > 0
    ensures Join(sep, Split(s, sep)) == s
    decreases |s|
  {
    match Find(s, sep)
    case None =>
    case Some(i) =>
      var rest := Split(s[i + |sep|..], sep);
      SplitRoundTrip(s[i + |sep|..], sep);
      assert Split(s, sep) == [s[..i]] + rest;
      assert ([s[..i]] + rest)[1..] == rest;
      assert s == s[..i] + sep + s[i + |sep|..];
  }

  /** No piece of a split contains the separator. */
  lemma {:induction false} SplitPiecesAvoidSep(s: string, sep: string)
    requires |sep| > 0
    ensures forall k :: 0 <= k < |Split(s, sep)| ==> !Contains(Split(s, sep)[k], sep)
    decreases |s|
  {
    match Find(s, sep)
    case None =>
    case Some(i) =>
      var rest := Split(s[i + |sep|..], sep);
      SplitPiecesAvoidSep(s[i + |sep|..], sep);
      forall j | 0 <= j <= i - |sep| ensures !OccursAt(s[..i], sep, j) {
        assert s[..i][j..j + |sep|] == s[j..j + |sep|];
        assert !OccursAt(s, sep, j);
      }
      assert !Contains(s[..i], sep);
      assert Split(s, sep) == [s[..i]] + rest;
  }

  /** Splitting on a one-character separator undoes joining parts that do
      not contain it. */
  lemma {:induction false} SplitJoin(sep: string, parts: seq<string>)
    requires |sep| == 1 && |parts| > 0
    requires forall k :: 0 <= k < |parts| ==> sep[0] !in parts[k]
    ensures Split(Join(sep, parts), sep) == parts
    decreases |parts|
  {
    var s := Join(sep, parts);
    var p := parts[0];
    assert s[..|p|] == p by {
      if |parts| > 1 { assert s == p + sep + Join(sep, parts[1..]); }
    }
    forall j | 0 <= j < |p| ensures !OccursAt(s, sep, j) {
      assert s[j] == p[j];
      assert p[j] != sep[0];
    }
    if |parts| == 1 {
      assert s == p;
      assert Find(s, sep).None?;
    } else {
      assert s == p + sep + Join(sep, parts[1..]);
      assert OccursAt(s, sep, |p|);
      assert Find(s, sep) == Some(|p|);
      assert s[|p| + 1..] == Join(sep, parts[1..]);
      assert s[..|p|] == p;
      SplitJoin(sep, parts[1..]);
      assert parts == [p] + parts[1..];
    }
  }

  /** Python's `s.replace(old, new)`: every non-overlapping occurrence of
      `old`, scanned from the left, becomes `new`; an empty `old` inserts
      `new` before every character and at the end. */
  function ReplaceAll(s: string, pat: string, repl: string): (r: string)
    ensures |repl| <= |pat| ==> |r| <= |s|
    decreases |s|
  {
    if |pat| == 0 then
      (if |s| == 0 then repl else repl + [s[0]] + ReplaceAll(s[1..], pat, repl))
    else if OccursAt(s, pat, 0) then
      repl + ReplaceAll(s[|pat|..], pat, repl)
    else if |s| == 0 then ""
    else [s[0]] + ReplaceAll(s[1..], pat, repl)
  }

  /** Replacing a pattern that does not occur changes nothing. */
  lemma ReplaceAllWithoutMatch(s: string, pat: string, repl: string)
    requires |pat| > 0 && !Contains(s, pat)
    ensures ReplaceAll(s, pat, repl) == s
  {
    FindSomeIffContains(s, pat);
    ReplaceAllIsJoinOfSplit(s, pat, repl);
  }

  /** Deleting the empty string changes nothing: `s.replace("", "") == s`. */
  lemma {:induction false} RemoveEmptyIsIdentity(s: string)
    ensures ReplaceAll(s, "", "") == s
    decreases |s|
  {
    if |s| > 0 {
      RemoveEmptyIsIdentity(s[1..]);
    }
  }

  /** Searching the tail of `s` finds the same occurrences, one index earlier. */
  lemma {:induction false} FindFromTail(s: string, t: string, k: nat)
    requires 1 <= k <= |s|
    ensures FindFrom(s[1..], t, k - 1) ==
      (match FindFrom(s, t, k) case None => None case Some(i) => Some(i - 1))
    decreases |s| - k
  {
    if k + |t| <= |s| {
      assert s[1..][k - 1..k - 1 + |t|] == s[k..k + |t|];
    }
    if !OccursAt(s, t, k) && k < |s| {
      FindFromTail(s, t, k + 1);
    }
  }

  lemma SplitAtFirst(s: string, sep: string, i: nat)
    requires |sep| > 0 && Find(s, sep) == Some(i)
    ensures Split(s, sep) == [s[..i]] + Split(s[i + |sep|..], sep)
  {
  }

  /** The first piece of `Split` when `s` does not start with `sep`. */
  lemma SplitStep(s: string, sep: string)
    requires |sep| > 0 && |s| > 0 && !OccursAt(s, sep, 0)
    ensures Split(s, sep) == [[s[0]] + Split(s[1..], sep)[0]] + Split(s[1..], sep)[1..]
  {
    FindFromTail(s, sep, 1);
    assert Find(s, sep) == FindFrom(s, sep, 1);
    if Find(s, sep).None? {
      SplitStepNoMatch(s, sep);
    } else {
      SplitStepMatch(s, sep, Find(s, sep).value);
    }
  }

  lemma SplitStepNoMatch(s: string, sep: string)
    requires |sep| > 0 && |s| > 0
    requires Find(s, sep).None? && Find(s[1..], sep).None?
    ensures Split(s, sep) == [[s[0]] + Split(s[1..], sep)[0]] + Split(s[1..], sep)[1..]
  {
    assert Split(s[1..], sep) == [s[1..]];
    assert s == [s[0]] + s[1..];
  }

  lemma SplitStepMatch(s: string, sep: string, i: nat)
    requires |sep| > 0 && 1 <= i <= |s|
    requires Find(s, sep) == Some(i) && Find(s[1..], sep) == Some(i - 1)
    ensures Split(s, sep) == [[s[0]] + Split(s[1..], sep)[0]] + Split(s[1..], sep)[1..]
  {
    var st := Split(s[1..], sep);
    DropAfterFirst(s, i - 1 + |sep|);
    SplitAtFirstRest(s[1..], sep, i - 1, s[i + |sep|..]);
    assert st[0] == s[1..][..i - 1] && st[1..] == Split(s[i + |sep|..], sep);
    SplitAtFirst(s, sep, i);
    ConsPrefix(s, i);
  }

  /** Each cut of `Split` is at the leftmost occurrence of the separator left
      in the text: no occurrence starts inside a piece, even one that would
      run on into the separator that follows it. This is what fixes the cuts
      for a separator that overlaps itself, such as "..". */
  lemma {:induction false} SplitCutsLeftmost(s: string, sep: string)
    requires |sep| > 0
    ensures var r := Split(s, sep);
      forall k :: 0 <= k < |r| - 1 ==> !Contains(r[k] + sep[..|sep| - 1], sep)
    decreases |s|
  {
    match Find(s, sep)
    case None =>
    case Some(i) =>
      var rest := Split(s[i + |sep|..], sep);
      var r := Split(s, sep);
      SplitCutsLeftmost(s[i + |sep|..], sep);
      SplitAtFirst(s, sep, i);
      FirstPieceLeftmost(s, sep, i);
      forall k | 0 < k < |r| - 1 ensures !Contains(r[k] + sep[..|sep| - 1], sep) {
        assert r[k] == rest[k - 1];
      }
  }

  /** No occurrence of the separator starts inside the first piece. */
  lemma FirstPieceLeftmost(s: string, sep: string, i: nat)
    requires |sep| > 0 && Find(s, sep) == Some(i)
    ensures !Contains(s[..i] + sep[..|sep| - 1], sep)
  {
    var x := s[..i] + sep[..|sep| - 1];
    assert x == s[..i + |sep| - 1] by {
      forall m | i <= m < i + |sep| - 1 ensures x[m] == s[m] {
        OccursAtChar(s, sep, i, m);
      }
    }
    if Contains(x, sep) {
      var j :| 0 <= j <= |x| - |sep| && OccursAt(x, sep, j);
      assert s[j..j + |sep|] == x[j..j + |sep|];
      assert OccursAt(s, sep, j);
      assert false;
    }
  }

  /** `SplitAtFirst`, with the remainder after the separator named by the caller. */
  lemma SplitAtFirstRest(t: string, sep: string, k: nat, u: string)
    requires |sep| > 0 && Find(t, sep) == Some(k) && u == t[k + |sep|..]
    ensures Split(t, sep) == [t[..k]] + Split(u, sep)
  {
    SplitAtFirst(t, sep, k);
  }

  /** Dropping `k` characters after the first is dropping `k + 1`. */
  lemma DropAfterFirst(s: string, k: nat)
    requires k < |s|
    ensures s[1..][k..] == s[k + 1..]
  {
  }

  lemma ConsPrefix(s: string, i: nat)
    requires 1 <= i <= |s|
    ensures s[..i] == [s[0]] + s[1..][..i - 1]
  {
  }

  /** Python's identity `s.replace(old, new) == new.join(s.split(old))` for a
      non-empty `old`: the scanning replacement agrees with split-then-join. */
  lemma {:induction false} ReplaceAllIsJoinOfSplit(s: string, pat: string, repl: string)
    requires |pat| > 0
    ensures ReplaceAll(s, pat, repl) == Join(repl, Split(s, pat))
    decreases |s|
  {
    if OccursAt(s, pat, 0) {
      ReplaceAllIsJoinOfSplit(s[|pat|..], pat, repl);
      ReplaceJoinAtMatch(s, pat, repl);
    } else if |s| == 0 {
      assert Find(s, pat).None?;
      assert Split(s, pat) == [s];
    } else {
      ReplaceAllIsJoinOfSplit(s[1..], pat, repl);
      ReplaceJoinPastChar(s, pat, repl);
    }
  }

  /** The inductive step of `ReplaceAllIsJoinOfSplit` when `s` starts with `pat`. */
  lemma ReplaceJoinAtMatch(s: string, pat: string, repl: string)
    requires |pat| > 0 && OccursAt(s, pat, 0)
    requires ReplaceAll(s[|pat|..], pat, repl) == Join(repl, Split(s[|pat|..], pat))
    ensures ReplaceAll(s, pat, repl) == Join(repl, Split(s, pat))
  {
    var rest := Split(s[|pat|..], pat);
    calc {
      ReplaceAll(s, pat, repl);
      == { ReplaceAllAtMatch(s, pat, repl); }
      repl + ReplaceAll(s[|pat|..], pat, repl);
      == { assert "" + repl == repl; }
      "" + repl + Join(repl, rest);
      == { JoinCons(repl, "", rest); }
      Join(repl, [""] + rest);
      == { SplitAtMatch(s, pat); }
      Join(repl, Split(s, pat));
    }
  }

  lemma ReplaceAllAtMatch(s: string, pat: string, repl: string)
    requires |pat| > 0 && OccursAt(s, pat, 0)
    ensures ReplaceAll(s, pat, repl) == repl + ReplaceAll(s[|pat|..], pat, repl)
  {
  }

  lemma ReplaceAllPastChar(s: string, pat: string, repl: string)
    requires |pat| > 0 && |s| > 0 && !OccursAt(s, pat, 0)
    ensures ReplaceAll(s, pat, repl) == [s[0]] + ReplaceAll(s[1..], pat, repl)
  {
  }

  lemma SplitAtMatch(s: string, pat: string)
    requires |pat| > 0 && OccursAt(s, pat, 0)
    ensures Split(s, pat) == [""] + Split(s[|pat|..], pat)
  {
    SplitAtFirst(s, pat, 0);
    assert s[..0] == "";
  }

  lemma JoinCons(sep: string, x: string, rest: seq<string>)
    requires |rest| > 0
    ensures Join(sep, [x] + rest) == x + sep + Join(sep, rest)
  {
    assert ([x] + rest)[1..] == rest;
  }

  /** The inductive step of `ReplaceAllIsJoinOfSplit` when `s` does not start with `pat`. */
  lemma ReplaceJoinPastChar(s: string, pat: string, repl: string)
    requires |pat| > 0 && |s| > 0 && !OccursAt(s, pat, 0)
    requires ReplaceAll(s[1..], pat, repl) == Join(repl, Split(s[1..], pat))
    ensures ReplaceAll(s, pat, repl) == Join(repl, Split(s, pat))
  {
    assert ReplaceAll(s, pat, repl) == [s[0]] + ReplaceAll(s[1..], pat, repl);
    SplitStep(s, pat);
    var tail := Split(s[1..], pat);
    var head := [[s[0]] + tail[0]] + tail[1..];
    if |tail| == 1 {
      assert head == [[s[0]] + tail[0]];
      assert Join(repl, head) == [s[0]] + tail[0];
      assert Join(repl, tail) == tail[0];
    } else {
      assert head[1..] == tail[1..];
      assert tail == [tail[0]] + tail[1..];
      assert Join(repl, tail) == tail[0] + repl + Join(repl, tail[1..]);
      assert Join(repl, head) == ([s[0]] + tail[0]) + repl + Join(repl, tail[1..]);
      assert Join(repl, head) == [s[0]] + Join(repl, tail);
    }
  }

}
