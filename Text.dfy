/**
 * The three string operations the normalizer relies on, over strings as
 * sequences of characters: substring search (`str.find`), splitting on a
 * separator (`str.split`) and replacing every occurrence (`str.replace`).
 */
module Text {

  /** `sub` occurs in `s` starting at index `k`. */
  predicate OccursAt(s: string, sub: string, k: nat)
  {
    k + |sub| <= |s| && s[k..k + |sub|] == sub
  }

  /** Occurrences in the tail of `s` are the occurrences in `s` shifted by one. */
  lemma OccursAtTail(s: string, sub: string, k: nat)
    requires |s| > 0
    ensures OccursAt(s[1..], sub, k) <==> OccursAt(s, sub, k + 1)
  {
    if k + 1 + |sub| <= |s| {
      assert s[1..][k..k + |sub|] == s[k + 1..k + 1 + |sub|];
    }
  }

  /** No occurrence at the front and none in the tail means none at all. */
  lemma NoOccurrenceFromTail(s: string, sub: string)
    requires |s| > 0 && !OccursAt(s, sub, 0)
    requires forall k: nat :: !OccursAt(s[1..], sub, k)
    ensures forall k: nat :: !OccursAt(s, sub, k)
  {
    forall k: nat | k > 0 ensures !OccursAt(s, sub, k) {
      OccursAtTail(s, sub, k - 1);
    }
  }

  /** The first occurrence in the tail is the first one in `s`, one place on. */
  lemma FirstOccurrenceFromTail(s: string, sub: string, f: nat)
    requires |s| > 0 && !OccursAt(s, sub, 0)
    requires OccursAt(s[1..], sub, f)
    requires forall k: nat :: k < f ==> !OccursAt(s[1..], sub, k)
    ensures OccursAt(s, sub, f + 1)
    ensures forall k: nat :: k < f + 1 ==> !OccursAt(s, sub, k)
  {
    OccursAtTail(s, sub, f);
    forall k: nat | 0 < k < f + 1 ensures !OccursAt(s, sub, k) {
      OccursAtTail(s, sub, k - 1);
    }
  }

  /** An occurrence of `sub` is also an occurrence of each prefix of `sub`. */
  lemma OccursAtPrefix(s: string, sub: string, k: nat, m: nat)
    requires OccursAt(s, sub, k) && m <= |sub|
    ensures OccursAt(s, sub[..m], k)
  {
    assert s[k..k + m] == s[k..k + |sub|][..m];
  }

  /** Index of the first occurrence of `sub` in `s`, or -1 when there is none. */
  function Find(s: string, sub: string): (r: int)
    ensures r == -1 || 0 <= r <= |s| - |sub|
    decreases |s|
  {
    if |s| < |sub| then -1
    else if s[..|sub|] == sub then 0
    else
      var f := Find(s[1..], sub);
      if f == -1 then -1 else f + 1
  }

  /**
   * Find gives the first index at which `sub` occurs, and -1 exactly when
   * it occurs nowhere.
   */
  lemma {:induction false} FindIsFirstOccurrence(s: string, sub: string)
    ensures Find(s, sub) >= 0 ==> OccursAt(s, sub, Find(s, sub))
    ensures Find(s, sub) >= 0 ==> forall k: nat :: k < Find(s, sub) ==> !OccursAt(s, sub, k)
    ensures Find(s, sub) == -1 <==> forall k: nat :: !OccursAt(s, sub, k)
    decreases |s|
  {
    if |s| < |sub| {
    } else if s[..|sub|] == sub {
      assert OccursAt(s, sub, 0);
    } else {
      assert s[..|sub|] == s[0..0 + |sub|];
      FindIsFirstOccurrence(s[1..], sub);
      var f := Find(s[1..], sub);
      if f == -1 {
        NoOccurrenceFromTail(s, sub);
      } else {
        FirstOccurrenceFromTail(s, sub, f);
      }
    }
  }

  /** Where Find reports an index, `sub` occurs there. */
  lemma {:induction false} FindOccurs(s: string, sub: string)
    ensures Find(s, sub) >= 0 ==> OccursAt(s, sub, Find(s, sub))
    decreases |s|
  {
    if |s| < |sub| {
    } else if s[..|sub|] == sub {
      assert OccursAt(s, sub, 0);
    } else {
      FindOccurs(s[1..], sub);
      if Find(s[1..], sub) >= 0 {
        OccursAtTail(s, sub, Find(s[1..], sub));
      }
    }
  }

  /** An occurrence splits `s` into the text before it, `sub`, and the rest. */
  lemma OccurrenceSplits(s: string, sub: string, k: nat)
    requires OccursAt(s, sub, k)
    ensures s == s[..k] + (sub + s[k + |sub|..])
  {
    assert s[..k] + (s[k..k + |sub|] + s[k + |sub|..]) == s;
  }

  /** Conversely, the first index at which `sub` occurs is what Find gives. */
  lemma FindAt(s: string, sub: string, j: nat)
    requires OccursAt(s, sub, j)
    requires forall k: nat :: k < j ==> !OccursAt(s, sub, k)
    ensures Find(s, sub) == j
  {
    FindIsFirstOccurrence(s, sub);
  }

  /** A string without `sub` gets no occurrence ending inside it by appending. */
  lemma NoOccurrenceInPrefix(a: string, b: string, sub: string, k: nat)
    requires Find(a, sub) == -1 && k + |sub| <= |a|
    ensures !OccursAt(a + b, sub, k)
  {
    assert (a + b)[k..k + |sub|] == a[k..k + |sub|];
    FindIsFirstOccurrence(a, sub);
    assert !OccursAt(a, sub, k);
  }

  /**
   * Every non-overlapping occurrence of `pat`, scanned from the left,
   * replaced by `rep`.
   */
  function ReplaceAll(s: string, pat: string, rep: string): string
    requires |pat| > 0
    decreases |s|
  {
    if |s| < |pat| then s
    else if s[..|pat|] == pat then rep + ReplaceAll(s[|pat|..], pat, rep)
    else [s[0]] + ReplaceAll(s[1..], pat, rep)
  }

  /**
   * Replacing all occurrences is: keep the text before the first occurrence
   * `i` (as Find reports it), emit `rep`, and go on after that occurrence;
   * without an occurrence the string is unchanged.
   */
  lemma ReplaceAllByFind(s: string, pat: string, rep: string, i: int)
    requires |pat| > 0 && i == Find(s, pat)
    ensures i == -1 ==> ReplaceAll(s, pat, rep) == s
    ensures i >= 0 ==> ReplaceAll(s, pat, rep) == s[..i] + rep + ReplaceAll(s[i + |pat|..], pat, rep)
  {
    if i == -1 {
      assert s + [] == s;
      ReplaceAllCopiesClearPrefix(s, [], pat, rep);
    } else {
      FindOccurs(s, pat);
      ReplaceAllAtFirst(s, pat, rep, i);
    }
  }

  /** The case of ReplaceAllByFind where the first occurrence is at `i`. */
  lemma ReplaceAllAtFirst(s: string, pat: string, rep: string, i: nat)
    requires |pat| > 0 && i == Find(s, pat) && OccursAt(s, pat, i)
    ensures ReplaceAll(s, pat, rep) == s[..i] + rep + ReplaceAll(s[i + |pat|..], pat, rep)
  {
    OccurrenceSplits(s, pat, i);
    ReplaceAllAroundFirst(s[..i], pat, s[i + |pat|..], rep);
  }

  /** `a + pat + c`, with no occurrence of `pat` starting in `a`, becomes `a + rep` and the replaced `c`. */
  lemma ReplaceAllAroundFirst(a: string, pat: string, c: string, rep: string)
    requires |pat| > 0 && Find(a + (pat + c), pat) == |a|
    ensures ReplaceAll(a + (pat + c), pat, rep) == a + rep + ReplaceAll(c, pat, rep)
  {
    ReplaceAllCopiesClearPrefix(a, pat + c, pat, rep);
    ReplaceAllAtFront(pat, rep, c);
    assert a + (rep + ReplaceAll(c, pat, rep)) == a + rep + ReplaceAll(c, pat, rep);
  }

  /**
   * A prefix `a` before the first occurrence of `pat` in `a + b` is copied
   * unchanged, and the scan goes on with `b`.
   */
  lemma {:induction false} ReplaceAllCopiesClearPrefix(a: string, b: string, pat: string, rep: string)
    requires |pat| > 0
    requires Find(a + b, pat) == -1 || Find(a + b, pat) >= |a|
    ensures ReplaceAll(a + b, pat, rep) == a + ReplaceAll(b, pat, rep)
    decreases |a|
  {
    var s := a + b;
    if a == [] {
      assert s == b;
    } else if |s| < |pat| {
      ReplaceAllShort(s, pat, rep);
      ReplaceAllShort(b, pat, rep);
    } else {
      assert s[1..] == a[1..] + b;
      ReplaceAllSkip(s, pat, rep);
      ReplaceAllCopiesClearPrefix(a[1..], b, pat, rep);
      assert a == [a[0]] + a[1..];
    }
  }

  /**
   * Where `s` does not start with `pat`, its first character is copied, and
   * the first occurrence in the tail is one place earlier.
   */
  lemma ReplaceAllSkip(s: string, pat: string, rep: string)
    requires 0 < |pat| <= |s| && Find(s, pat) != 0
    ensures ReplaceAll(s, pat, rep) == [s[0]] + ReplaceAll(s[1..], pat, rep)
    ensures Find(s, pat) == -1 ==> Find(s[1..], pat) == -1
    ensures Find(s, pat) > 0 ==> Find(s[1..], pat) == Find(s, pat) - 1
  {
  }

  /** An occurrence at the front is replaced and the scan resumes after it. */
  lemma ReplaceAllAtFront(pat: string, rep: string, c: string)
    requires |pat| > 0
    ensures ReplaceAll(pat + c, pat, rep) == rep + ReplaceAll(c, pat, rep)
  {
    assert (pat + c)[..|pat|] == pat && (pat + c)[|pat|..] == c;
  }

  /** A string shorter than the pattern neither contains it nor changes. */
  lemma ReplaceAllShort(s: string, pat: string, rep: string)
    requires 0 < |pat| && |s| < |pat|
    ensures Find(s, pat) == -1 && ReplaceAll(s, pat, rep) == s
  {
  }

  /**
   * A replacement at least as long as the pattern never shortens the string,
   * and a strictly longer one lengthens every string the pattern occurs in.
   */
  lemma {:induction false} ReplaceAllGrows(s: string, pat: string, rep: string)
    requires 0 < |pat| <= |rep|
    ensures |ReplaceAll(s, pat, rep)| >= |s|
    ensures |pat| < |rep| && Find(s, pat) != -1 ==> |ReplaceAll(s, pat, rep)| > |s|
    decreases |s|
  {
    if |s| < |pat| {
    } else if s[..|pat|] == pat {
      ReplaceAllGrows(s[|pat|..], pat, rep);
    } else {
      ReplaceAllGrows(s[1..], pat, rep);
    }
  }

  /** A character found neither in `s` nor in `rep` is not in the result. */
  lemma {:induction false} ReplaceAllAvoids(s: string, pat: string, rep: string, c: char)
    requires |pat| > 0 && c !in s && c !in rep
    ensures c !in ReplaceAll(s, pat, rep)
    decreases |s|
  {
    if |s| < |pat| {
    } else if s[..|pat|] == pat {
      ReplaceAllAvoids(s[|pat|..], pat, rep, c);
    } else {
      ReplaceAllAvoids(s[1..], pat, rep, c);
    }
  }

  /**
   * The fields of `s` between occurrences of `sep`; an empty string gives one
   * empty field and adjacent separators give empty fields.
   */
  function Split(s: string, sep: char): (fields: seq<string>)
    ensures |fields| >= 1
    ensures forall i :: 0 <= i < |fields| ==> sep !in fields[i]
    decreases |s|
  {
    if s == [] then [[]]
    else
      var rest := Split(s[1..], sep);
      if s[0] == sep then [[]] + rest
      else [[s[0]] + rest[0]] + rest[1..]
  }

  /** The fields glued back together with `sep` between neighbours. */
  function JoinWith(fields: seq<string>, sep: char): string
    decreases |fields|
  {
    if fields == [] then []
    else if |fields| == 1 then fields[0]
    else fields[0] + [sep] + JoinWith(fields[1..], sep)
  }

  /** Splitting loses nothing: joining the fields gives the string back. */
  lemma {:induction false} JoinSplit(s: string, sep: char)
    ensures JoinWith(Split(s, sep), sep) == s
    decreases |s|
  {
    if s != [] {
      var rest := Split(s[1..], sep);
      JoinSplit(s[1..], sep);
      if s[0] == sep {
        assert s == [sep] + s[1..];
      } else if |rest| == 1 {
        assert s == [s[0]] + s[1..];
      } else {
        assert JoinWith(rest, sep) == rest[0] + [sep] + JoinWith(rest[1..], sep);
        assert s == [s[0]] + s[1..];
      }
    }
  }

  /** Splitting a separator-free field followed by a separator peels off that field. */
  lemma {:induction false} SplitFirstField(a: string, sep: char, b: string)
    requires sep !in a
    ensures Split(a + [sep] + b, sep) == [a] + Split(b, sep)
    ensures Split(a, sep) == [a]
    decreases |a|
  {
    if a == [] {
      assert ([sep] + b)[1..] == b;
    } else {
      SplitFirstField(a[1..], sep, b);
      assert (a + [sep] + b)[1..] == a[1..] + [sep] + b;
      assert a == [a[0]] + a[1..];
    }
  }

  /** Joining separator-free fields and splitting again gives the fields back. */
  lemma {:induction false} SplitJoin(fields: seq<string>, sep: char)
    requires |fields| >= 1
    requires forall i :: 0 <= i < |fields| ==> sep !in fields[i]
    ensures Split(JoinWith(fields, sep), sep) == fields
    decreases |fields|
  {
    if |fields| == 1 {
      SplitFirstField(fields[0], sep, []);
    } else {
      SplitJoin(fields[1..], sep);
      SplitFirstField(fields[0], sep, JoinWith(fields[1..], sep));
    }
  }
}
