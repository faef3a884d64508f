/**
 * String primitives the rename tool relies on: `includes`, `endsWith`,
 * `split(":")`/`join(":")`, and a global replace with a literal pattern
 * (what `s.replace(new RegExp(tok, "g"), rep)` does when `tok` holds no
 * regular-expression metacharacter and `rep` holds no `$`).
 */
module Text {

  /** `tok` is a prefix of `s`. */
  predicate StartsWith(s: string, tok: string) {
    |tok| <= |s| && s[..|tok|] == tok
  }

  /** `String.prototype.endsWith`. */
  predicate EndsWith(s: string, suffix: string) {
    |suffix| <= |s| && s[|s| - |suffix|..] == suffix
  }

  /** `tok` occurs in `s` starting at index `i`. */
  predicate OccursAt(s: string, tok: string, i: int) {
    0 <= i && i + |tok| <= |s| && s[i..i + |tok|] == tok
  }

  /** `String.prototype.includes`, scanning from the left. */
  predicate Contains(s: string, tok: string)
    decreases |s|
  {
    StartsWith(s, tok) || (|s| > 0 && Contains(s[1..], tok))
  }

  /** An occurrence at any position makes the scan succeed. */
  lemma {:induction false} OccursThenContains(s: string, tok: string, i: int)
    requires OccursAt(s, tok, i)
    ensures Contains(s, tok)
    decreases i
  {
    if i > 0 {
      assert s[1..][i - 1..i - 1 + |tok|] == s[i..i + |tok|];
      OccursThenContains(s[1..], tok, i - 1);
    }
  }

  /** A successful scan finds a position where `tok` occurs. */
  lemma {:induction false} ContainsThenOccurs(s: string, tok: string) returns (i: int)
    requires Contains(s, tok)
    ensures OccursAt(s, tok, i)
    decreases |s|
  {
    if StartsWith(s, tok) {
      i := 0;
    } else {
      var j := ContainsThenOccurs(s[1..], tok);
      assert s[1..][j..j + |tok|] == s[j + 1..j + 1 + |tok|];
      i := j + 1;
    }
  }

  /** The scanning definition agrees with "there is a position where `tok` occurs". */
  lemma ContainsIffOccurs(s: string, tok: string)
    ensures Contains(s, tok) <==> exists i :: OccursAt(s, tok, i)
  {
    if Contains(s, tok) {
      var i := ContainsThenOccurs(s, tok);
    }
    forall i | OccursAt(s, tok, i) ensures Contains(s, tok) {
      OccursThenContains(s, tok, i);
    }
  }

  /**
   * Global replacement of the literal `tok` by `rep`: the string is scanned
   * from the left, each occurrence found is replaced, and scanning resumes
   * right after it, so occurrences never overlap and the text produced by
   * `rep` is never scanned again.
   */
  function ReplaceAll(s: string, tok: string, rep: string): (r: string)
    requires tok != []
    ensures !Contains(s, tok) ==> r == s
    ensures rep == tok ==> r == s
    ensures forall c :: c in r ==> c in s || c in rep
    ensures |rep| >= |tok| ==> |r| >= |s|
    ensures |rep| <= |tok| ==> |r| <= |s|
    decreases |s|
  {
    if |s| < |tok| then s
    else if s[..|tok|] == tok then
      var rest := ReplaceAll(s[|tok|..], tok, rep);
      assert s == tok + s[|tok|..];
      rep + rest
    else
      var rest := ReplaceAll(s[1..], tok, rep);
      assert s == [s[0]] + s[1..];
      [s[0]] + rest
  }

  /** Where the token does not start the string, its first character is kept. */
  lemma ReplaceAllSkipsFirst(s: string, tok: string, rep: string)
    requires tok != [] && |s| >= |tok| && s[..|tok|] != tok
    ensures ReplaceAll(s, tok, rep) == s[..1] + ReplaceAll(s[1..], tok, rep)
  {
  }

  /**
   * Replace-all leaves a string unchanged exactly when the token does not
   * occur in it or is replaced by itself.
   */
  lemma {:induction false} ReplaceAllUnchangedIff(s: string, tok: string, rep: string)
    requires tok != []
    ensures ReplaceAll(s, tok, rep) == s <==> (!Contains(s, tok) || rep == tok)
    decreases |s|
  {
    if |s| < |tok| {
      assert !StartsWith(s, tok);
      if Contains(s, tok) {
        ContainsIffOccurs(s, tok);
      }
    } else if s[..|tok|] == tok {
      assert Contains(s, tok);
      var rest := s[|tok|..];
      var r := ReplaceAll(s, tok, rep);
      assert r == rep + ReplaceAll(rest, tok, rep);
      assert s == tok + rest;
      if |rep| == |tok| {
        assert r[..|tok|] == rep;
      }
    } else {
      ReplaceAllUnchangedIff(s[1..], tok, rep);
      assert Contains(s, tok) <==> Contains(s[1..], tok);
      var r := ReplaceAll(s, tok, rep);
      assert r == [s[0]] + ReplaceAll(s[1..], tok, rep);
      assert r[1..] == ReplaceAll(s[1..], tok, rep);
      assert s == [s[0]] + s[1..];
    }
  }

  /**
   * The result of replace-all starts with the first `n` characters of `s`,
   * unless one of its first `n` characters comes from the replacement; the
   * returned index is `n` in the first case and that character's index in
   * the second.
   */
  lemma {:induction false} ReplaceAllPrefix(s: string, tok: string, rep: string, n: nat) returns (j: nat)
    requires tok != [] && rep != []
    requires n <= |ReplaceAll(s, tok, rep)|
    ensures j <= n
    ensures j == n ==> n <= |s| && ReplaceAll(s, tok, rep)[..n] == s[..n]
    ensures j < n ==> ReplaceAll(s, tok, rep)[j] in rep
    decreases |s|
  {
    var r := ReplaceAll(s, tok, rep);
    if n == 0 {
      j := 0;
    } else if |s| < |tok| {
      j := n;
    } else if s[..|tok|] == tok {
      assert r == rep + ReplaceAll(s[|tok|..], tok, rep);
      assert r[0] == rep[0];
      j := 0;
    } else {
      var rest := ReplaceAll(s[1..], tok, rep);
      assert r == [s[0]] + rest;
      var j' := ReplaceAllPrefix(s[1..], tok, rep, n - 1);
      if j' == n - 1 {
        assert r[..n] == [s[0]] + rest[..n - 1];
        assert s[..n] == [s[0]] + s[1..][..n - 1];
        j := n;
      } else {
        assert r[j' + 1] == rest[j'];
        j := j' + 1;
      }
    }
  }

  /** An occurrence in `a + b` past the end of `a` is an occurrence in `b`. */
  lemma OccursPastPrefix(a: string, b: string, tok: string, i: int)
    requires i >= |a|
    ensures OccursAt(a + b, tok, i) <==> OccursAt(b, tok, i - |a|)
  {
    if i + |tok| <= |a + b| {
      assert (a + b)[i..i + |tok|] == b[i - |a|..i - |a| + |tok|];
    }
  }

  /** No occurrence of `tok` starts inside a text that shares no character with it. */
  lemma NoOccurrenceFromForeign(rep: string, rest: string, tok: string, i: int)
    requires tok != []
    requires forall c :: c in rep ==> c !in tok
    requires 0 <= i < |rep|
    ensures !OccursAt(rep + rest, tok, i)
  {
    if i + |tok| <= |rep + rest| {
      assert (rep + rest)[i..i + |tok|][0] == rep[i];
      assert tok[0] in tok;
    }
  }

  /**
   * The replacement is global: when the replacement is non-empty and shares
   * no character with the token, the token occurs nowhere in the result.
   */
  lemma {:induction false} ReplaceAllLeavesNoOccurrence(s: string, tok: string, rep: string, i: int)
    requires tok != [] && rep != []
    requires forall c :: c in rep ==> c !in tok
    ensures !OccursAt(ReplaceAll(s, tok, rep), tok, i)
    decreases |s|
  {
    var r := ReplaceAll(s, tok, rep);
    if |s| < |tok| {
      assert r == s;
    } else if s[..|tok|] == tok {
      var rest := ReplaceAll(s[|tok|..], tok, rep);
      assert r == rep + rest;
      if i < 0 {
      } else if i < |rep| {
        NoOccurrenceFromForeign(rep, rest, tok, i);
      } else {
        ReplaceAllLeavesNoOccurrence(s[|tok|..], tok, rep, i - |rep|);
        OccursPastPrefix(rep, rest, tok, i);
      }
    } else {
      var rest := ReplaceAll(s[1..], tok, rep);
      assert r == [s[0]] + rest;
      if i > 0 {
        ReplaceAllLeavesNoOccurrence(s[1..], tok, rep, i - 1);
        OccursPastPrefix([s[0]], rest, tok, i);
      } else if i == 0 && |tok| <= |r| {
        FirstCharKept(s, tok, rep);
      }
    }
  }

  /**
   * When `s` does not start with the token, the result does not start with
   * it either.
   */
  lemma FirstCharKept(s: string, tok: string, rep: string)
    requires tok != [] && rep != []
    requires forall c :: c in rep ==> c !in tok
    requires |s| >= |tok| && s[..|tok|] != tok
    requires |tok| <= |ReplaceAll(s, tok, rep)|
    ensures !OccursAt(ReplaceAll(s, tok, rep), tok, 0)
  {
    var r := ReplaceAll(s, tok, rep);
    var j := ReplaceAllPrefix(s, tok, rep, |tok|);
    if j < |tok| {
      assert r[..|tok|][j] == r[j];
      assert tok[j] in tok;
    }
  }

  /** In particular the scan of `includes` no longer finds the token in the result. */
  lemma ReplaceAllRemovesToken(s: string, tok: string, rep: string)
    requires tok != [] && rep != []
    requires forall c :: c in rep ==> c !in tok
    ensures !Contains(ReplaceAll(s, tok, rep), tok)
  {
    var r := ReplaceAll(s, tok, rep);
    if Contains(r, tok) {
      var i := ContainsThenOccurs(r, tok);
      ReplaceAllLeavesNoOccurrence(s, tok, rep, i);
    }
  }

  /** Splits `s` at every `sep`, as `String.prototype.split` with a one-character separator. */
  function Split(s: string, sep: char): (parts: seq<string>)
    ensures |parts| >= 1
    decreases |s|
  {
    if |s| == 0 then [""]
    else
      var rest := Split(s[1..], sep);
      if s[0] == sep then [""] + rest
      else [[s[0]] + rest[0]] + rest[1..]
  }

  /** There is one more part than there are separators. */
  lemma {:induction false} SplitCount(s: string, sep: char)
    ensures |Split(s, sep)| == multiset(s)[sep] + 1
    decreases |s|
  {
    if |s| > 0 {
      SplitCount(s[1..], sep);
      assert s == [s[0]] + s[1..];
      assert multiset(s) == multiset{s[0]} + multiset(s[1..]);
    }
  }

  /** No part holds the separator. */
  lemma {:induction false} SplitPartsFree(s: string, sep: char)
    ensures forall i :: 0 <= i < |Split(s, sep)| ==> sep !in Split(s, sep)[i]
    decreases |s|
  {
    if |s| > 0 {
      SplitPartsFree(s[1..], sep);
      var rest := Split(s[1..], sep);
      if s[0] != sep {
        assert sep !in [s[0]] + rest[0];
      }
    }
  }

  /** `Array.prototype.join` with a one-character separator. */
  function Join(parts: seq<string>, sep: char): string
    requires |parts| >= 1
    decreases |parts|
  {
    if |parts| == 1 then parts[0]
    else parts[0] + [sep] + Join(parts[1..], sep)
  }

  /** Joining a list with a first part in front puts that part and a separator in front. */
  lemma JoinCons(p: string, rest: seq<string>, sep: char)
    requires |rest| >= 1
    ensures Join([p] + rest, sep) == p + [sep] + Join(rest, sep)
  {
    assert ([p] + rest)[1..] == rest;
  }

  /** Extending the first part by one character extends the joined string by that character. */
  lemma JoinExtendFirst(c: char, rest: seq<string>, sep: char)
    requires |rest| >= 1
    ensures Join([[c] + rest[0]] + rest[1..], sep) == [c] + Join(rest, sep)
  {
    if |rest| > 1 {
      JoinCons([c] + rest[0], rest[1..], sep);
      JoinCons(rest[0], rest[1..], sep);
      assert [rest[0]] + rest[1..] == rest;
    }
  }

  /** Splitting and joining back on the same separator gives the original string. */
  lemma {:induction false} JoinSplit(s: string, sep: char)
    ensures Join(Split(s, sep), sep) == s
    decreases |s|
  {
    if |s| > 0 {
      var rest := Split(s[1..], sep);
      JoinSplit(s[1..], sep);
      assert s == [s[0]] + s[1..];
      if s[0] == sep {
        JoinCons("", rest, sep);
      } else {
        JoinExtendFirst(s[0], rest, sep);
      }
    }
  }

  /** A string without the separator splits into itself alone. */
  lemma {:induction false} SplitWithoutSep(p: string, sep: char)
    requires sep !in p
    ensures Split(p, sep) == [p]
    decreases |p|
  {
    if |p| > 0 {
      SplitWithoutSep(p[1..], sep);
      assert p == [p[0]] + p[1..];
    }
  }

  /** A separator-free head followed by the separator splits off as the first part. */
  lemma {:induction false} SplitAtSep(p: string, sep: char, rest: string)
    requires sep !in p
    ensures Split(p + [sep] + rest, sep) == [p] + Split(rest, sep)
    decreases |p|
  {
    var s := p + [sep] + rest;
    if |p| == 0 {
      assert s[1..] == rest;
    } else {
      SplitAtSep(p[1..], sep, rest);
      assert s[1..] == p[1..] + [sep] + rest;
      assert [p[0]] + p[1..] == p;
    }
  }

  /** Joining separator-free parts and splitting again gives the parts back. */
  lemma {:induction false} SplitJoin(parts: seq<string>, sep: char)
    requires |parts| >= 1
    requires forall i :: 0 <= i < |parts| ==> sep !in parts[i]
    ensures Split(Join(parts, sep), sep) == parts
    decreases |parts|
  {
    if |parts| == 1 {
      SplitWithoutSep(parts[0], sep);
    } else {
      SplitJoin(parts[1..], sep);
      SplitAtSep(parts[0], sep, Join(parts[1..], sep));
      assert [parts[0]] + parts[1..] == parts;
    }
  }
}
