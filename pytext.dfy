/**
 * Python's `str.split(sep)` and `sep.join(parts)` for a one-character separator,
 * and the substring test `marker in s`.
 */
module PyText {

  /** `s.split(sep)`: the pieces between separators; never empty, `"".split(sep) == [""]`. */
  function Split(s: string, sep: char): (parts: seq<string>)
    ensures |parts| >= 1
    decreases |s|
  {
    if |s| == 0 then [""]
    else
      var rest := Split(s[1..], sep);
      if s[0] == sep then [""] + rest
      else [[s[0]] + rest[0]] + rest[1..]
  }

  /** `sep.join(parts)`. */
  function Join(parts: seq<string>, sep: char): string
    decreases |parts|
  {
    if |parts| == 0 then ""
    else if |parts| == 1 then parts[0]
    else parts[0] + [sep] + Join(parts[1..], sep)
  }

  predicate Free(s: string, c: char) {
    forall k :: 0 <= k < |s| ==> s[k] != c
  }

  predicate AllFree(parts: seq<string>, c: char) {
    forall n :: 0 <= n < |parts| ==> Free(parts[n], c)
  }

  /** How many times c occurs in s. */
  function Count(s: string, c: char): nat
    decreases |s|
  {
    if |s| == 0 then 0 else (if s[0] == c then 1 else 0) + Count(s[1..], c)
  }

  /** Splitting yields one more piece than there are separators, and no piece holds one. */
  lemma {:induction false} SplitShape(s: string, sep: char)
    ensures |Split(s, sep)| == Count(s, sep) + 1
    ensures AllFree(Split(s, sep), sep)
    decreases |s|
  {
    if |s| > 0 {
      SplitShape(s[1..], sep);
    }
  }

  /** A character absent from s is absent from every piece of its split. */
  lemma {:induction false} SplitKeepsFree(s: string, sep: char, c: char)
    requires Free(s, c)
    ensures AllFree(Split(s, sep), c)
    decreases |s|
  {
    if |s| > 0 {
      SplitKeepsFree(s[1..], sep, c);
    }
  }

  /** Joining what was split gives the text back: a split and join with no replacement is the identity. */
  lemma {:induction false} JoinSplit(s: string, sep: char)
    ensures Join(Split(s, sep), sep) == s
    decreases |s|
  {
    if |s| > 0 {
      var rest := Split(s[1..], sep);
      JoinSplit(s[1..], sep);
      if s[0] == sep {
        assert Split(s, sep)[1..] == rest;
      } else {
        var parts := Split(s, sep);
        if |rest| == 1 {
          assert parts == [[s[0]] + rest[0]];
        } else {
          assert parts[1..] == rest[1..];
          assert Join(rest, sep) == rest[0] + [sep] + Join(rest[1..], sep);
          assert Join(parts, sep) == [s[0]] + rest[0] + [sep] + Join(rest[1..], sep);
        }
      }
    }
  }

  lemma {:induction false} SplitPrefixed(sep: char, head: string, tail: string)
    requires Free(head, sep)
    ensures Split(head + [sep] + tail, sep) == [head] + Split(tail, sep)
    decreases |head|
  {
    if |head| == 0 {
      assert [] + [sep] + tail == [sep] + tail;
      assert ([sep] + tail)[1..] == tail;
    } else {
      var s := head + [sep] + tail;
      assert s[1..] == head[1..] + [sep] + tail;
      SplitPrefixed(sep, head[1..], tail);
      assert [head[0]] + head[1..] == head;
    }
  }

  lemma {:induction false} SplitFree(s: string, sep: char)
    requires Free(s, sep)
    ensures Split(s, sep) == [s]
    decreases |s|
  {
    if |s| > 0 {
      SplitFree(s[1..], sep);
      assert [s[0]] + s[1..] == s;
    }
  }

  /** Splitting a join of separator-free pieces gives the pieces back. */
  lemma {:induction false} SplitJoin(parts: seq<string>, sep: char)
    requires |parts| >= 1 && AllFree(parts, sep)
    ensures Split(Join(parts, sep), sep) == parts
    decreases |parts|
  {
    if |parts| == 1 {
      SplitFree(parts[0], sep);
    } else {
      SplitJoin(parts[1..], sep);
      SplitPrefixed(sep, parts[0], Join(parts[1..], sep));
      assert [parts[0]] + parts[1..] == parts;
    }
  }

  /** Joining pieces free of c, with a separator other than c, gives a text free of c. */
  lemma {:induction false} JoinKeepsFree(parts: seq<string>, sep: char, c: char)
    requires sep != c && AllFree(parts, c)
    ensures Free(Join(parts, sep), c)
    decreases |parts|
  {
    if |parts| > 1 {
      JoinKeepsFree(parts[1..], sep, c);
    }
  }

  predicate OccursAt(s: string, m: string, i: int) {
    0 <= i && i + |m| <= |s| && s[i..i + |m|] == m
  }

  /** `m in s`. */
  function Contains(s: string, m: string): bool
    decreases |s|
  {
    if |m| > |s| then false
    else if s[..|m|] == m then true
    else Contains(s[1..], m)
  }

  /** `m in s` holds exactly when m occurs in s at some position. */
  lemma {:induction false} ContainsOccurs(s: string, m: string)
    ensures Contains(s, m) <==> exists i :: OccursAt(s, m, i)
    decreases |s|
  {
    if |m| > |s| {
    } else if s[..|m|] == m {
      assert OccursAt(s, m, 0);
    } else {
      ContainsOccurs(s[1..], m);
      forall i | OccursAt(s[1..], m, i) ensures OccursAt(s, m, i + 1) {
        assert s[i + 1..i + 1 + |m|] == s[1..][i..i + |m|];
      }
      forall i | OccursAt(s, m, i) && i > 0 ensures OccursAt(s[1..], m, i - 1) {
        assert s[1..][i - 1..i - 1 + |m|] == s[i..i + |m|];
      }
      assert !OccursAt(s, m, 0);
    }
  }
}
