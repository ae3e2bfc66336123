/** The subset of Rust's `str` API the detection code relies on, over `seq<char>`:
    `trim`, `contains`, `starts_with`, `split(char)`, `split_whitespace`, `lines`
    and `Iterator::find` over lines. */
module Text {
  import opened Wrappers

  // ---------------------------------------------------------------------------
  // Whitespace and trimming
  // ---------------------------------------------------------------------------

  /** Rust's `char::is_whitespace`: the Unicode White_Space property. */
  predicate IsWhitespace(c: char)
  {
    || ('\t' <= c <= '\r')
    || c == ' '
    || c == '\U{0085}'
    || c == '\U{00A0}'
    || c == '\U{1680}'
    || ('\U{2000}' <= c <= '\U{200A}')
    || c == '\U{2028}'
    || c == '\U{2029}'
    || c == '\U{202F}'
    || c == '\U{205F}'
    || c == '\U{3000}'
  }

  predicate AllWhitespace(s: string)
  {
    forall k :: 0 <= k < |s| ==> IsWhitespace(s[k])
  }

  predicate NoWhitespace(s: string)
  {
    forall k :: 0 <= k < |s| ==> !IsWhitespace(s[k])
  }

  /** A string with no whitespace at either end, the shape `str::trim` leaves. */
  predicate IsTrimmed(s: string)
  {
    s == [] || (!IsWhitespace(s[0]) && !IsWhitespace(s[|s| - 1]))
  }

  /** Index of the first non-whitespace character, or |s| when there is none. */
  function TrimStart(s: string): (i: nat)
    ensures i <= |s|
    ensures AllWhitespace(s[..i])
    ensures i < |s| ==> !IsWhitespace(s[i])
    decreases |s|
  {
    if |s| == 0 || !IsWhitespace(s[0]) then 0
    else
      var j := TrimStart(s[1..]);
      assert forall k :: 1 <= k < 1 + j ==> s[k] == s[1..][..j][k - 1];
      1 + j
  }

  /** One past the last non-whitespace character, or 0 when there is none. */
  function TrimEnd(s: string): (j: nat)
    ensures j <= |s|
    ensures AllWhitespace(s[j..])
    ensures j > 0 ==> !IsWhitespace(s[j - 1])
    decreases |s|
  {
    if |s| == 0 || !IsWhitespace(s[|s| - 1]) then |s|
    else
      var j := TrimEnd(s[..|s| - 1]);
      assert forall k :: j <= k < |s| - 1 ==> s[k] == s[..|s| - 1][j..][k - j];
      j
  }

  /** Rust's `str::trim`: the result is the infix of `s` that starts at the first
      non-whitespace character, has whitespace only after it, and has no
      whitespace at either of its own ends. */
  function Trim(s: string): (r: string)
    ensures IsTrimmed(r)
    ensures TrimStart(s) + |r| <= |s| && r == s[TrimStart(s)..TrimStart(s) + |r|]
    ensures AllWhitespace(s[TrimStart(s) + |r|..])
  {
    var i := TrimStart(s);
    var j := TrimEnd(s);
    if i <= j then s[i..j]
    else
      assert forall k :: j <= k < |s| ==> s[j..][k - j] == s[k];
      assert i == |s|;
      []
  }

  /** Trimming a trimmed string padded by whitespace on both sides gives it back:
      `Trim` is fully determined by its contract. */
  lemma TrimOfPadded(pre: string, t: string, post: string)
    requires AllWhitespace(pre) && AllWhitespace(post) && IsTrimmed(t)
    ensures Trim(pre + t + post) == t
  {
    var s := pre + t + post;
    if t == [] {
      assert forall k :: 0 <= k < |pre| ==> s[k] == pre[k];
      assert forall k :: |pre| <= k < |s| ==> s[k] == post[k - |pre|];
      TrimOfBlank(s);
    } else {
      TrimOfPaddedWord(pre, t, post);
    }
  }

  lemma TrimOfPaddedWord(pre: string, t: string, post: string)
    requires AllWhitespace(pre) && AllWhitespace(post) && IsTrimmed(t) && t != []
    ensures Trim(pre + t + post) == t
  {
    var s := pre + t + post;
    var n := |pre| + |t|;
    TrimStartOfPadded(pre, t, post);
    assert s[n - 1] == t[|t| - 1];
    TrimEndAfter(s, n - 1);
    assert s[n..] == post;
    TrimEndBefore(s, n);
    assert s[|pre|..n] == t;
  }

  lemma {:induction false} TrimEndBefore(s: string, n: nat)
    requires n <= |s| && AllWhitespace(s[n..])
    ensures TrimEnd(s) <= n
    decreases |s|
  {
    if n < |s| {
      assert s[|s| - 1] == s[n..][|s| - 1 - n];
      var t := s[..|s| - 1];
      assert t[n..] == s[n..][..|s| - 1 - n];
      TrimEndBefore(t, n);
    }
  }

  /** Trimming adds no character. */
  lemma TrimKeepsOut(s: string, c: char)
    requires c !in s
    ensures c !in Trim(s)
  {
    var r := Trim(s);
    assert forall k :: 0 <= k < |r| ==> r[k] == s[TrimStart(s) + k];
  }

  lemma TrimOfBlank(s: string)
    requires AllWhitespace(s)
    ensures Trim(s) == []
  {
    assert TrimStart(s) == |s|;
  }

  lemma TrimStartOfPadded(pre: string, t: string, post: string)
    requires AllWhitespace(pre) && t != [] && !IsWhitespace(t[0])
    ensures TrimStart(pre + t + post) == |pre|
  {
    var s := pre + t + post;
    var i := TrimStart(s);
    assert s[|pre|] == t[0];
    assert forall k :: 0 <= k < |pre| ==> s[k] == pre[k];
    assert forall k :: 0 <= k < i ==> s[..i][k] == s[k];
  }

  /** A string with a non-whitespace character does not trim to nothing. */
  lemma TrimNonBlank(s: string, i: nat)
    requires i < |s| && !IsWhitespace(s[i])
    ensures Trim(s) != []
  {
    var ts := TrimStart(s);
    var r := Trim(s);
    assert forall k :: 0 <= k < ts ==> s[..ts][k] == s[k];
    assert ts < |s|;
    assert s[ts + |r|..] != [] ==> s[ts + |r|..][0] == s[ts + |r|];
  }

  /** `str::trim` is idempotent. */
  lemma TrimIdempotent(s: string)
    ensures Trim(Trim(s)) == Trim(s)
  {
    TrimOfPadded([], Trim(s), []);
    assert [] + Trim(s) + [] == Trim(s);
  }

  // ---------------------------------------------------------------------------
  // Substring search
  // ---------------------------------------------------------------------------

  /** `p` occurs in `s` starting at index `i`. */
  predicate OccursAt(s: string, p: string, i: nat)
  {
    i + |p| <= |s| && s[i..i + |p|] == p
  }

  lemma OccursShift(s: string, p: string)
    requires |s| > 0
    ensures forall i: nat :: OccursAt(s[1..], p, i) <==> OccursAt(s, p, i + 1)
  {
    forall i: nat ensures OccursAt(s[1..], p, i) <==> OccursAt(s, p, i + 1) {
      if i + |p| <= |s[1..]| {
        assert s[1..][i..i + |p|] == s[i + 1..i + 1 + |p|];
      }
    }
  }

  /** Rust's `str::contains` with a string pattern: some occurrence exists. */
  function Contains(s: string, p: string): (b: bool)
    ensures b <==> exists i: nat :: OccursAt(s, p, i)
    decreases |s|
  {
    if |p| > |s| then false
    else if s[..|p|] == p then assert OccursAt(s, p, 0); true
    else
      OccursShift(s, p);
      var b := Contains(s[1..], p);
      assert b ==> exists i: nat :: OccursAt(s, p, i) by {
        if b {
          var i: nat :| OccursAt(s[1..], p, i);
          assert OccursAt(s, p, i + 1);
        }
      }
      assert (exists i: nat :: OccursAt(s, p, i)) ==> b by {
        if i: nat :| OccursAt(s, p, i) {
          assert i != 0;
          assert OccursAt(s[1..], p, i - 1);
        }
      }
      b
  }

  /** A pattern with non-whitespace ends is found in `Trim(s)` exactly when it is
      found in `s`: trimming only removes characters such a pattern cannot overlap. */
  lemma ContainsTrimmed(s: string, p: string)
    requires |p| > 0 && !IsWhitespace(p[0]) && !IsWhitespace(p[|p| - 1])
    ensures Contains(Trim(s), p) <==> Contains(s, p)
  {
    if Contains(Trim(s), p) {
      var i: nat :| OccursAt(Trim(s), p, i);
      OccurrenceLeavesTrim(s, p, i);
    }
    if Contains(s, p) {
      var i: nat :| OccursAt(s, p, i);
      OccurrenceEntersTrim(s, p, i);
    }
  }

  lemma OccurrenceLeavesTrim(s: string, p: string, i: nat)
    requires OccursAt(Trim(s), p, i)
    ensures OccursAt(s, p, TrimStart(s) + i)
  {
    InfixOccurrence(s, p, i, TrimStart(s), Trim(s));
  }

  lemma OccurrenceEntersTrim(s: string, p: string, i: nat)
    requires |p| > 0 && !IsWhitespace(p[0]) && !IsWhitespace(p[|p| - 1])
    requires OccursAt(s, p, i)
    ensures i >= TrimStart(s) && OccursAt(Trim(s), p, i - TrimStart(s))
  {
    var a := TrimStart(s);
    var r := Trim(s);
    OccurrenceEnds(s, p, i);
    TrimStartIsFirst(s, i);
    TrimEndIsLast(s, i + |p| - 1);
    OccursInSlice(s, p, i, a, a + |r|, r);
  }

  /** An occurrence inside a slice is an occurrence in the slice. */
  lemma OccursInSlice(s: string, p: string, i: nat, a: nat, b: nat, t: string)
    requires OccursAt(s, p, i) && a <= i && i + |p| <= b <= |s| && t == s[a..b]
    ensures OccursAt(t, p, i - a)
  {
    forall k | 0 <= k < |p| ensures t[i - a..i - a + |p|][k] == p[k] {
      assert t[i - a + k] == s[i + k] == s[i..i + |p|][k];
    }
  }

  lemma OccurrenceEnds(s: string, p: string, i: nat)
    requires |p| > 0 && OccursAt(s, p, i)
    ensures s[i] == p[0] && s[i + |p| - 1] == p[|p| - 1]
  {
    assert s[i..i + |p|][0] == s[i];
    assert s[i..i + |p|][|p| - 1] == s[i + |p| - 1];
  }

  /** No non-whitespace character comes before the trimmed part. */
  lemma {:induction false} TrimStartIsFirst(s: string, k: nat)
    requires k < |s| && !IsWhitespace(s[k])
    ensures TrimStart(s) <= k
    decreases k
  {
    if k > 0 && IsWhitespace(s[0]) {
      assert s[1..][k - 1] == s[k];
      TrimStartIsFirst(s[1..], k - 1);
    }
  }

  /** No non-whitespace character comes after the trimmed part. */
  lemma {:induction false} TrimEndIsLast(s: string, k: nat)
    requires k < |s| && !IsWhitespace(s[k])
    ensures k < TrimStart(s) + |Trim(s)|
    decreases |s|
  {
    TrimStartIsFirst(s, k);
    TrimEndAfter(s, k);
  }

  lemma {:induction false} TrimEndAfter(s: string, k: nat)
    requires k < |s| && !IsWhitespace(s[k])
    ensures k < TrimEnd(s)
    decreases |s|
  {
    if IsWhitespace(s[|s| - 1]) {
      var t := s[..|s| - 1];
      assert t[k] == s[k];
      TrimEndAfter(t, k);
    }
  }

  /** Rust's `str::starts_with` with a string pattern. */
  predicate StartsWith(s: string, p: string)
  {
    |p| <= |s| && s[..|p|] == p
  }

  // ---------------------------------------------------------------------------
  // Splitting on one character
  // ---------------------------------------------------------------------------

  /** The pieces separated by `sep`, as Rust's `join` on a one-character separator. */
  function Join(parts: seq<string>, sep: char): string
    requires |parts| > 0
  {
    if |parts| == 1 then parts[0] else parts[0] + [sep] + Join(parts[1..], sep)
  }

  lemma JoinConsChar(c: char, parts: seq<string>, sep: char)
    requires |parts| > 0
    ensures Join([[c] + parts[0]] + parts[1..], sep) == [c] + Join(parts, sep)
  {
    var ps := [[c] + parts[0]] + parts[1..];
    assert ps[1..] == parts[1..];
  }

  /** Rust's `str::split` on one character: at least one piece, no piece holds the
      separator, and joining the pieces with the separator rebuilds the input. */
  function Split(s: string, sep: char): (parts: seq<string>)
    ensures |parts| > 0
    ensures forall k :: 0 <= k < |parts| ==> sep !in parts[k]
    ensures Join(parts, sep) == s
    decreases |s|
  {
    if |s| == 0 then [[]]
    else
      var rest := Split(s[1..], sep);
      if s[0] == sep then
        assert ([[]] + rest)[1..] == rest;
        [[]] + rest
      else
        JoinConsChar(s[0], rest, sep);
        assert [s[0]] + s[1..] == s;
        [[s[0]] + rest[0]] + rest[1..]
  }

  /** A piece followed by the separator splits off as the first piece. */
  lemma {:induction false} SplitConcat(a: string, sep: char, b: string)
    requires sep !in a
    ensures Split(a + [sep] + b, sep) == [a] + Split(b, sep)
    decreases |a|
  {
    var s := a + [sep] + b;
    if a == [] {
      assert s[1..] == b;
    } else {
      assert s[1..] == a[1..] + [sep] + b;
      SplitConcat(a[1..], sep, b);
      assert [a[0]] + a[1..] == a;
    }
  }

  /** A string without the separator is a single piece. */
  lemma {:induction false} SplitNoSep(a: string, sep: char)
    requires sep !in a
    ensures Split(a, sep) == [a]
    decreases |a|
  {
    if a != [] {
      SplitNoSep(a[1..], sep);
      assert [a[0]] + a[1..] == a;
    }
  }

  /** The other round trip: splitting a join of separator-free pieces gives them back. */
  lemma {:induction false} SplitJoin(parts: seq<string>, sep: char)
    requires |parts| > 0
    requires forall k :: 0 <= k < |parts| ==> sep !in parts[k]
    ensures Split(Join(parts, sep), sep) == parts
    decreases |parts|
  {
    if |parts| == 1 {
      SplitNoSep(parts[0], sep);
    } else {
      SplitJoin(parts[1..], sep);
      SplitConcat(parts[0], sep, Join(parts[1..], sep));
    }
  }

  /** More than one piece exactly when the separator occurs. */
  lemma SplitCount(s: string, sep: char)
    ensures |Split(s, sep)| >= 2 <==> sep in s
  {
    var ps := Split(s, sep);
    if |ps| >= 2 {
      assert s == ps[0] + [sep] + Join(ps[1..], sep);
      assert s[|ps[0]|] == sep;
    } else {
      assert s == ps[0];
    }
  }

  /** Rust's `split(sep).nth(k).unwrap_or("")`. */
  function Field(s: string, sep: char, k: nat): (f: string)
    ensures sep !in f
    ensures k < |Split(s, sep)| ==> f == Split(s, sep)[k]
    ensures k >= |Split(s, sep)| ==> f == []
  {
    var parts := Split(s, sep);
    if k < |parts| then parts[k] else []
  }

  /** A join ends with the last character of its last piece, when that piece is
      not empty. */
  lemma {:induction false} LastGroupEndsJoin(groups: seq<string>, sep: char)
    requires |groups| > 0 && groups[|groups| - 1] != []
    ensures var j := Join(groups, sep); var last := groups[|groups| - 1];
      j != [] && j[|j| - 1] == last[|last| - 1]
    decreases |groups|
  {
    if |groups| > 1 {
      LastGroupEndsJoin(groups[1..], sep);
    }
  }

  /** A join starts with the first character of its first piece, when that piece
      is not empty. */
  lemma JoinStartsWithFirst(groups: seq<string>, sep: char)
    requires |groups| > 0 && groups[0] != []
    ensures var j := Join(groups, sep); j != [] && j[0] == groups[0][0]
  {
  }

  /** A character that is neither the separator nor in any piece is not in the join. */
  lemma {:induction false} JoinAvoids(groups: seq<string>, sep: char, c: char)
    requires |groups| > 0 && c != sep
    requires forall k :: 0 <= k < |groups| ==> c !in groups[k]
    ensures c !in Join(groups, sep)
    decreases |groups|
  {
    if |groups| > 1 {
      JoinAvoids(groups[1..], sep, c);
    }
  }

  /** A join of two or more pieces whose last piece is empty ends with the separator. */
  lemma {:induction false} JoinEndsWithSep(groups: seq<string>, sep: char)
    requires |groups| >= 2 && groups[|groups| - 1] == []
    ensures var j := Join(groups, sep); j != [] && j[|j| - 1] == sep
    decreases |groups|
  {
    if |groups| > 2 {
      JoinEndsWithSep(groups[1..], sep);
    }
  }

  /** Every character of a piece is a character of the join. */
  lemma {:induction false} JoinKeepsChars(groups: seq<string>, sep: char, k: nat, c: char)
    requires k < |groups| && c in groups[k]
    ensures c in Join(groups, sep)
    decreases k
  {
    if k > 0 {
      JoinKeepsChars(groups[1..], sep, k - 1, c);
    }
  }

  /** Field `k` of separator-free pieces joined by the separator is piece `k`, and
      a field past the last piece is empty. */
  lemma FieldOfJoin(parts: seq<string>, sep: char, k: nat)
    requires |parts| > 0
    requires forall j :: 0 <= j < |parts| ==> sep !in parts[j]
    ensures Field(Join(parts, sep), sep, k) == if k < |parts| then parts[k] else []
  {
    SplitJoin(parts, sep);
  }

  // ---------------------------------------------------------------------------
  // Splitting on whitespace
  // ---------------------------------------------------------------------------

  /** The non-whitespace characters of `s`, in order. */
  function RemoveWhitespace(s: string): string
  {
    if |s| == 0 then []
    else if IsWhitespace(s[0]) then RemoveWhitespace(s[1..])
    else [s[0]] + RemoveWhitespace(s[1..])
  }

  lemma {:induction false} RemoveWhitespaceAppend(a: string, b: string)
    ensures RemoveWhitespace(a + b) == RemoveWhitespace(a) + RemoveWhitespace(b)
    decreases |a|
  {
    if a != [] {
      assert (a + b)[0] == a[0];
      assert (a + b)[1..] == a[1..] + b;
      RemoveWhitespaceAppend(a[1..], b);
      if IsWhitespace(a[0]) {
        assert RemoveWhitespace(a + b) == RemoveWhitespace(a[1..] + b);
      } else {
        assert RemoveWhitespace(a + b) == [a[0]] + RemoveWhitespace(a[1..] + b);
      }
    } else {
      assert a + b == b;
    }
  }

  lemma {:induction false} RemoveWhitespaceOfWord(a: string)
    requires NoWhitespace(a)
    ensures RemoveWhitespace(a) == a
    decreases |a|
  {
    if a != [] {
      RemoveWhitespaceOfWord(a[1..]);
      assert [a[0]] + a[1..] == a;
    }
  }

  /** The tokens laid end to end. */
  function Concat(tokens: seq<string>): string
  {
    if |tokens| == 0 then [] else tokens[0] + Concat(tokens[1..])
  }

  /** Length of the maximal run of non-whitespace characters at the start of `s`. */
  function WordEnd(s: string): (n: nat)
    requires |s| > 0 && !IsWhitespace(s[0])
    ensures 0 < n <= |s|
    ensures NoWhitespace(s[..n])
    ensures n < |s| ==> IsWhitespace(s[n])
    decreases |s|
  {
    if |s| == 1 || IsWhitespace(s[1]) then 1
    else
      var m := WordEnd(s[1..]);
      assert forall k :: 1 <= k < 1 + m ==> s[k] == s[1..][..m][k - 1];
      1 + m
  }

  /** Rust's `str::split_whitespace`: the non-empty whitespace-free tokens of `s`
      in order; `SplitWhitespaceKeepsText` shows that together they hold exactly
      the non-whitespace characters of `s`. */
  function SplitWhitespace(s: string): (tokens: seq<string>)
    ensures forall k :: 0 <= k < |tokens| ==> |tokens[k]| > 0 && NoWhitespace(tokens[k])
    decreases |s|
  {
    if |s| == 0 then []
    else if IsWhitespace(s[0]) then SplitWhitespace(s[1..])
    else
      var n := WordEnd(s);
      var rest := SplitWhitespace(s[n..]);
      assert ([s[..n]] + rest)[1..] == rest;
      [s[..n]] + rest
  }

  /** The tokens laid end to end are the input with its whitespace removed. */
  lemma {:induction false} SplitWhitespaceKeepsText(s: string)
    ensures Concat(SplitWhitespace(s)) == RemoveWhitespace(s)
    decreases |s|
  {
    if s != [] {
      if IsWhitespace(s[0]) {
        SplitWhitespaceKeepsText(s[1..]);
      } else {
        var n := WordEnd(s);
        var tokens := SplitWhitespace(s);
        SplitWhitespaceKeepsText(s[n..]);
        SplitWhitespaceUnfold(s);
        assert tokens[1..] == SplitWhitespace(s[n..]);
        RemoveWhitespaceAppend(s[..n], s[n..]);
        RemoveWhitespaceOfWord(s[..n]);
        assert s[..n] + s[n..] == s;
      }
    }
  }

  /** `WordEnd` is the only length with its contract. */
  lemma WordEndUnique(s: string, n: nat)
    requires 0 < n <= |s| && !IsWhitespace(s[0])
    requires NoWhitespace(s[..n]) && (n < |s| ==> IsWhitespace(s[n]))
    ensures WordEnd(s) == n
  {
    var m := WordEnd(s);
    assert forall k :: 0 <= k < n ==> s[..n][k] == s[k];
    assert forall k :: 0 <= k < m ==> s[..m][k] == s[k];
  }

  /** A word that ends at a boundary of `a` ends at the same place in `a + b`. */
  lemma WordEndAppend(a: string, b: string)
    requires |a| > 0 && !IsWhitespace(a[0])
    requires b == [] || IsWhitespace(a[|a| - 1]) || IsWhitespace(b[0])
    ensures WordEnd(a + b) == WordEnd(a)
  {
    var n := WordEnd(a);
    var s := a + b;
    assert s[..n] == a[..n];
    if n < |a| {
      assert s[n] == a[n];
    } else if b != [] {
      assert a[|a| - 1] == a[..n][|a| - 1];
      assert s[n] == b[0];
    }
    WordEndUnique(s, n);
  }

  /** Whitespace alone has no tokens. */
  lemma {:induction false} SplitWhitespaceOfBlank(s: string)
    requires AllWhitespace(s)
    ensures SplitWhitespace(s) == []
    decreases |s|
  {
    if s != [] {
      SplitWhitespaceOfBlank(s[1..]);
    }
  }

  /** A non-empty whitespace-free string is one token. */
  lemma SplitWhitespaceOfWord(w: string)
    requires |w| > 0 && NoWhitespace(w)
    ensures SplitWhitespace(w) == [w]
  {
    assert w[..|w|] == w;
    WordEndUnique(w, |w|);
    assert w[|w|..] == [];
  }

  /** Tokens never straddle a whitespace boundary: when `a` ends in whitespace or
      `b` starts with it, the tokens of `a + b` are those of `a` then those of `b`.
      With `SplitWhitespaceOfBlank` and `SplitWhitespaceOfWord` this fixes the
      tokens of every string. */
  lemma {:induction false} SplitWhitespaceAppend(a: string, b: string)
    requires a == [] || b == [] || IsWhitespace(a[|a| - 1]) || IsWhitespace(b[0])
    ensures SplitWhitespace(a + b) == SplitWhitespace(a) + SplitWhitespace(b)
    decreases |a|
  {
    if a == [] {
      assert a + b == b;
    } else if IsWhitespace(a[0]) {
      SplitWhitespaceStepBlank(a, b);
      assert a[1..] != [] ==> a[1..][|a[1..]| - 1] == a[|a| - 1];
      SplitWhitespaceAppend(a[1..], b);
    } else {
      var n := WordEnd(a);
      SplitWhitespaceUnfold(a);
      SplitWhitespaceStepWord(a, b);
      assert a[n..] != [] ==> a[n..][|a[n..]| - 1] == a[|a| - 1];
      SplitWhitespaceAppend(a[n..], b);
      Regroup(SplitWhitespace(a + b), SplitWhitespace(a), [a[..n]], SplitWhitespace(a[n..]), SplitWhitespace(b));
    }
  }

  lemma Regroup<T>(whole: seq<T>, left: seq<T>, head: seq<T>, x: seq<T>, y: seq<T>)
    requires left == head + x && whole == head + (x + y)
    ensures whole == left + y
  {
  }

  /** A leading whitespace character is skipped alike in `a` and in `a + b`. */
  lemma SplitWhitespaceStepBlank(a: string, b: string)
    requires a != [] && IsWhitespace(a[0])
    ensures SplitWhitespace(a) == SplitWhitespace(a[1..])
    ensures SplitWhitespace(a + b) == SplitWhitespace(a[1..] + b)
  {
    assert (a + b)[0] == a[0];
    assert (a + b)[1..] == a[1..] + b;
  }

  /** A leading word of `a` that ends at a boundary is the leading token of
      `a + b` too. */
  lemma SplitWhitespaceStepWord(a: string, b: string)
    requires a != [] && !IsWhitespace(a[0])
    requires b == [] || IsWhitespace(a[|a| - 1]) || IsWhitespace(b[0])
    ensures SplitWhitespace(a + b) == [a[..WordEnd(a)]] + SplitWhitespace(a[WordEnd(a)..] + b)
  {
    WordSplitsOff(a, b);
    SplitWhitespaceUnfold(a + b);
  }

  /** The leading word of `a` is the leading word of `a + b`, and what follows it
      in `a + b` is the rest of `a` followed by `b`. */
  lemma WordSplitsOff(a: string, b: string)
    requires a != [] && !IsWhitespace(a[0])
    requires b == [] || IsWhitespace(a[|a| - 1]) || IsWhitespace(b[0])
    ensures (a + b)[0] == a[0] && WordEnd(a + b) == WordEnd(a)
    ensures (a + b)[..WordEnd(a)] == a[..WordEnd(a)]
    ensures (a + b)[WordEnd(a)..] == a[WordEnd(a)..] + b
  {
    WordEndAppend(a, b);
    SlicesOfAppend(a, b, WordEnd(a));
  }

  lemma SlicesOfAppend<T>(a: seq<T>, b: seq<T>, n: nat)
    requires 0 < n <= |a|
    ensures (a + b)[0] == a[0] && (a + b)[..n] == a[..n] && (a + b)[n..] == a[n..] + b
  {
  }

  /** The first step of `SplitWhitespace` on a string that starts with a word. */
  lemma SplitWhitespaceUnfold(s: string)
    requires s != [] && !IsWhitespace(s[0])
    ensures SplitWhitespace(s) == [s[..WordEnd(s)]] + SplitWhitespace(s[WordEnd(s)..])
  {
  }

  /** The round trip: words joined by single spaces split back into the words. */
  lemma {:induction false} SplitWhitespaceJoin(words: seq<string>)
    requires |words| > 0
    requires forall k :: 0 <= k < |words| ==> |words[k]| > 0 && NoWhitespace(words[k])
    ensures SplitWhitespace(Join(words, ' ')) == words
    decreases |words|
  {
    SplitWhitespaceOfWord(words[0]);
    if |words| > 1 {
      var rest := Join(words[1..], ' ');
      var tail := [' '] + rest;
      JoinCons(words, ' ');
      SplitWhitespaceJoin(words[1..]);
      SplitWhitespaceAppend(words[0], tail);
      SplitWhitespaceAppend([' '], rest);
      SplitWhitespaceOfBlank([' ']);
      ConsTail(words, SplitWhitespace([' ']));
    }
  }

  /** A join of several pieces is the first piece, then the separator and the
      join of the rest. */
  lemma JoinCons(parts: seq<string>, sep: char)
    requires |parts| > 1
    ensures Join(parts, sep) == parts[0] + ([sep] + Join(parts[1..], sep))
  {
    assert parts[0] + [sep] + Join(parts[1..], sep) == parts[0] + ([sep] + Join(parts[1..], sep));
  }

  lemma ConsTail<T>(s: seq<T>, empty: seq<T>)
    requires |s| > 0 && empty == []
    ensures [s[0]] + (empty + s[1..]) == s
  {
  }

  /** Words joined by single spaces and padded by whitespace on both sides split
      back into the words. */
  lemma SplitWhitespacePadded(pre: string, words: seq<string>, post: string)
    requires AllWhitespace(pre) && AllWhitespace(post) && |words| > 0
    requires forall k :: 0 <= k < |words| ==> |words[k]| > 0 && NoWhitespace(words[k])
    ensures SplitWhitespace(pre + Join(words, ' ') + post) == words
  {
    var j := Join(words, ' ');
    SplitWhitespaceJoin(words);
    SplitWhitespaceBlankSuffix(j, post);
    SplitWhitespaceBlankPrefix(pre, j + post);
    assert pre + j + post == pre + (j + post);
  }

  /** Leading whitespace adds no token. */
  lemma SplitWhitespaceBlankPrefix(pre: string, t: string)
    requires AllWhitespace(pre)
    ensures SplitWhitespace(pre + t) == SplitWhitespace(t)
  {
    SplitWhitespaceOfBlank(pre);
    assert pre == [] || IsWhitespace(pre[|pre| - 1]);
    SplitWhitespaceAppend(pre, t);
  }

  /** Trailing whitespace adds no token. */
  lemma SplitWhitespaceBlankSuffix(t: string, post: string)
    requires AllWhitespace(post)
    ensures SplitWhitespace(t + post) == SplitWhitespace(t)
  {
    SplitWhitespaceOfBlank(post);
    assert post == [] || IsWhitespace(post[0]);
    SplitWhitespaceAppend(t, post);
    assert SplitWhitespace(t) + [] == SplitWhitespace(t);
  }

  /** A string with a non-whitespace character has at least one token. */
  lemma SplitWhitespaceNonEmpty(s: string, i: nat)
    requires i < |s| && !IsWhitespace(s[i])
    ensures |SplitWhitespace(s)| > 0
  {
    SplitWhitespaceKeepsText(s);
    RemoveWhitespaceKeeps(s, i);
  }

  /** A non-whitespace character survives the removal of whitespace. */
  lemma {:induction false} RemoveWhitespaceKeeps(s: string, i: nat)
    requires i < |s| && !IsWhitespace(s[i])
    ensures RemoveWhitespace(s) != []
    decreases i
  {
    if i > 0 && IsWhitespace(s[0]) {
      assert s[1..][i - 1] == s[i];
      RemoveWhitespaceKeeps(s[1..], i - 1);
    }
  }

  // ---------------------------------------------------------------------------
  // Lines
  // ---------------------------------------------------------------------------

  /** Drop one carriage return that ended a line. */
  function StripCr(line: string): (r: string)
    ensures |r| <= |line| && r == line[..|r|]
    ensures '\r' !in line ==> r == line
    ensures |line| == 0 || line[|line| - 1] != '\r' ==> r == line
    ensures |line| > 0 && line[|line| - 1] == '\r' ==> |r| + 1 == |line|
  {
    if |line| > 0 && line[|line| - 1] == '\r' then line[..|line| - 1] else line
  }

  lemma StripCrKeepsOut(line: string, c: char)
    requires c !in line
    ensures c !in StripCr(line)
  {
    var r := StripCr(line);
    assert forall j :: 0 <= j < |r| ==> r[j] == line[j];
  }

  /** Rust's `str::lines`: split at `\n`, drop a `\r` before each `\n`, and do not
      produce an empty last line for a trailing line ending. */
  function Lines(s: string): (lines: seq<string>)
    ensures forall k :: 0 <= k < |lines| ==> '\n' !in lines[k]
    ensures s == [] ==> lines == []
    ensures s != [] && '\n' !in s ==> lines == [s]
  {
    var pieces := Split(s, '\n');
    var n := |pieces| - 1;
    var ended := seq(n, k requires 0 <= k < n => StripCr(pieces[k]));
    forall k | 0 <= k < n ensures '\n' !in ended[k] {
      StripCrKeepsOut(pieces[k], '\n');
    }
    assert '\n' !in s ==> pieces == [s] by {
      if '\n' !in s { SplitNoSep(s, '\n'); }
    }
    ended + (if pieces[n] == [] then [] else [pieces[n]])
  }

  /** Text without carriage returns is its lines joined by line feeds, with one
      more line feed when it ends in one. */
  lemma LinesRejoin(s: string)
    requires '\r' !in s && s != []
    ensures s[|s| - 1] != '\n' ==> |Lines(s)| > 0 && Join(Lines(s), '\n') == s
    ensures s[|s| - 1] == '\n' ==> Join(Lines(s) + [[]], '\n') == s
  {
    var ps := Split(s, '\n');
    var n := |ps| - 1;
    PiecesOfPlainText(s);
    LinesOfPieces(s);
    var ls := Lines(s);
    assert ls[..n] == ps[..n];
    if ps[n] == [] {
      assert ls + [[]] == ps;
    } else {
      assert ls == ps;
    }
  }

  /** The pieces between the line feeds of text without carriage returns: none
      holds a carriage return, and the last is empty exactly when the text ends
      with a line feed. */
  lemma PiecesOfPlainText(s: string)
    requires '\r' !in s && s != []
    ensures var ps := Split(s, '\n');
      && (forall k :: 0 <= k < |ps| ==> StripCr(ps[k]) == ps[k])
      && (ps[|ps| - 1] == [] <==> s[|s| - 1] == '\n')
  {
    var ps := Split(s, '\n');
    forall k | 0 <= k < |ps| ensures StripCr(ps[k]) == ps[k] {
      PieceHasNoCr(s, ps, k);
    }
    LastPieceEmpty(s, ps);
  }

  lemma PieceHasNoCr(s: string, ps: seq<string>, k: nat)
    requires '\r' !in s && ps == Split(s, '\n') && k < |ps|
    ensures '\r' !in ps[k]
  {
    if '\r' in ps[k] {
      JoinKeepsChars(ps, '\n', k, '\r');
    }
  }

  lemma LastPieceEmpty(s: string, ps: seq<string>)
    requires s != [] && ps == Split(s, '\n')
    ensures ps[|ps| - 1] == [] <==> s[|s| - 1] == '\n'
  {
    var n := |ps| - 1;
    if ps[n] == [] {
      if n > 0 {
        JoinEndsWithSep(ps, '\n');
      }
    } else {
      LastGroupEndsJoin(ps, '\n');
      var last := ps[n];
      assert last[|last| - 1] in last;
    }
  }

  /** How `Lines` relates to the pieces between line feeds: each piece but the last
      loses a final carriage return, and the last piece is a line only when it is
      non-empty. */
  lemma LinesOfPieces(s: string)
    ensures var ps := Split(s, '\n'); var n := |ps| - 1;
      && |Lines(s)| == (if ps[n] == [] then n else n + 1)
      && (forall k :: 0 <= k < n ==> Lines(s)[k] == StripCr(ps[k]))
      && (ps[n] != [] ==> Lines(s)[n] == ps[n])
  {
  }

  /** The lines of line-feed-joined lines free of line-ending characters are those
      lines: either ending the last line with a line feed or not gives the same
      lines, as long as the unterminated last line is not empty. */
  lemma LinesOfJoin(ls: seq<string>)
    requires |ls| > 0
    requires forall k :: 0 <= k < |ls| ==> '\n' !in ls[k] && '\r' !in ls[k]
    ensures ls[|ls| - 1] != [] ==> Lines(Join(ls, '\n')) == ls
    ensures Lines(Join(ls + [[]], '\n')) == ls
  {
    if ls[|ls| - 1] != [] {
      LinesOfSplit(Join(ls, '\n'), ls, ls);
    }
    var ps := ls + [[]];
    assert ps[|ps| - 1] == [];
    assert forall k :: 0 <= k < |ls| ==> ps[k] == ls[k];
    assert forall k :: 0 <= k < |ps| ==> '\n' !in ps[k] by {
      forall k | 0 <= k < |ps| ensures '\n' !in ps[k] {
        if k < |ls| { assert ps[k] == ls[k]; }
      }
    }
    LinesOfSplit(Join(ps, '\n'), ps, ls);
  }

  lemma LinesOfSplit(s: string, ps: seq<string>, ls: seq<string>)
    requires |ps| > 0 && s == Join(ps, '\n')
    requires forall k :: 0 <= k < |ps| ==> '\n' !in ps[k]
    requires |ls| == (if ps[|ps| - 1] == [] then |ps| - 1 else |ps|)
    requires forall k :: 0 <= k < |ls| ==> ls[k] == ps[k] && '\r' !in ls[k]
    ensures Lines(s) == ls
  {
    SplitJoin(ps, '\n');
    LinesOfPlainPieces(s, ps, ls);
  }

  lemma LinesOfPlainPieces(s: string, ps: seq<string>, ls: seq<string>)
    requires ps == Split(s, '\n')
    requires |ls| == (if ps[|ps| - 1] == [] then |ps| - 1 else |ps|)
    requires forall k :: 0 <= k < |ls| ==> ls[k] == ps[k] && '\r' !in ls[k]
    ensures Lines(s) == ls
  {
    LinesOfPieces(s);
    var n := |ps| - 1;
    forall k | 0 <= k < |ls| ensures Lines(s)[k] == ls[k] {
      if k < n {
        assert StripCr(ps[k]) == ps[k];
      }
    }
  }

  /** Every line ended by a carriage return and a line feed, as on Windows. */
  function CrLfTerminated(ls: seq<string>): (ps: seq<string>)
    ensures |ps| == |ls| + 1 && ps[|ls|] == []
  {
    seq(|ls|, k requires 0 <= k < |ls| => ls[k] + ['\r']) + [[]]
  }

  /** `\r\n` line endings are removed whole: the carriage return does not stay at
      the end of a line. */
  lemma LinesOfCrLf(ls: seq<string>)
    requires forall k :: 0 <= k < |ls| ==> '\n' !in ls[k]
    ensures Lines(Join(CrLfTerminated(ls), '\n')) == ls
  {
    var ps := CrLfTerminated(ls);
    forall k | 0 <= k < |ps| ensures '\n' !in ps[k] {
      if k < |ls| {
        assert ps[k] == ls[k] + ['\r'];
      }
    }
    SplitJoin(ps, '\n');
    LinesOfPieces(Join(ps, '\n'));
    forall k | 0 <= k < |ls| ensures StripCr(ps[k]) == ls[k] {
      assert ps[k] == ls[k] + ['\r'];
      assert ps[k][..|ps[k]| - 1] == ls[k];
    }
  }

  /** An occurrence in a slice is an occurrence in the whole. */
  lemma InfixOccurrence(s: string, p: string, j: nat, a: nat, t: string)
    requires a + |t| <= |s| && t == s[a..a + |t|] && OccursAt(t, p, j)
    ensures OccursAt(s, p, a + j)
  {
    OccursInWhole(s, p, j, a, a + |t|, t);
  }

  lemma OccursInWhole(s: string, p: string, j: nat, a: nat, b: nat, t: string)
    requires a <= b <= |s| && t == s[a..b] && OccursAt(t, p, j)
    ensures OccursAt(s, p, a + j)
  {
    forall k | 0 <= k < |p| ensures s[a + j..a + j + |p|][k] == p[k] {
      assert s[a + j + k] == t[j + k] == t[j..j + |p|][k];
    }
  }

  /** An occurrence of a separator-free pattern in a join lies inside one piece. */
  lemma {:induction false} JoinOccurs(ps: seq<string>, sep: char, p: string, i: nat)
    requires |ps| > 0 && |p| > 0 && sep !in p
    requires OccursAt(Join(ps, sep), p, i)
    ensures exists k :: 0 <= k < |ps| && Contains(ps[k], p)
    decreases |ps|
  {
    if |ps| == 1 {
      assert Contains(ps[0], p);
    } else {
      var j := Join(ps, sep);
      var rest := Join(ps[1..], sep);
      var m := |ps[0]|;
      assert j == ps[0] + [sep] + rest;
      assert forall t :: i <= t < i + |p| ==> j[t] == j[i..i + |p|][t - i];
      assert forall t :: i <= t < i + |p| ==> j[t] != sep;
      assert j[m] == sep;
      if i + |p| <= m {
        OccursInSlice(j, p, i, 0, m, ps[0]);
        assert Contains(ps[0], p);
      } else {
        assert i > m;
        assert j[m + 1..] == rest;
        OccursInSlice(j, p, i, m + 1, |j|, rest);
        JoinOccurs(ps[1..], sep, p, i - (m + 1));
        var k :| 0 <= k < |ps[1..]| && Contains(ps[1..][k], p);
        assert ps[k + 1] == ps[1..][k];
      }
    }
  }

  /** An occurrence in one piece is an occurrence in the join. */
  lemma {:induction false} JoinContains(ps: seq<string>, sep: char, p: string, k: nat)
    requires k < |ps| && Contains(ps[k], p)
    ensures Contains(Join(ps, sep), p)
    decreases k
  {
    var j := Join(ps, sep);
    if |ps| > 1 {
      assert j == ps[0] + [sep] + Join(ps[1..], sep);
    }
    if k == 0 {
      var i: nat :| OccursAt(ps[0], p, i);
      assert j[..|ps[0]|] == ps[0];
      OccursInWhole(j, p, i, 0, |ps[0]|, ps[0]);
    } else {
      var rest := Join(ps[1..], sep);
      assert ps[1..][k - 1] == ps[k];
      JoinContains(ps[1..], sep, p, k - 1);
      var i: nat :| OccursAt(rest, p, i);
      assert j[|ps[0]| + 1..] == rest;
      OccursInWhole(j, p, i, |ps[0]| + 1, |j|, rest);
    }
  }

  /** Dropping a final carriage return cannot remove an occurrence of a pattern
      that does not end in one. */
  lemma ContainsStripCr(x: string, p: string)
    requires |p| > 0 && p[|p| - 1] != '\r'
    ensures Contains(StripCr(x), p) <==> Contains(x, p)
  {
    var r := StripCr(x);
    if Contains(r, p) {
      var i: nat :| OccursAt(r, p, i);
      OccursInWhole(x, p, i, 0, |r|, r);
    }
    if Contains(x, p) {
      var i: nat :| OccursAt(x, p, i);
      OccurrenceSurvivesStripCr(x, p, i);
    }
  }

  lemma OccurrenceSurvivesStripCr(x: string, p: string, i: nat)
    requires |p| > 0 && p[|p| - 1] != '\r' && OccursAt(x, p, i)
    ensures OccursAt(StripCr(x), p, i)
  {
    var r := StripCr(x);
    OccurrenceEnds(x, p, i);
    assert i + |p| <= |r|;
    OccursInSlice(x, p, i, 0, |r|, r);
  }

  /** A line holds a pattern that does not end in a carriage return exactly when
      the piece between line feeds it came from holds it; the empty piece after
      a final line feed, which is no line, holds nothing. */
  lemma LinePieceMention(s: string, p: string, k: nat)
    requires |p| > 0 && p[|p| - 1] != '\r'
    requires k < |Split(s, '\n')|
    ensures |Lines(s)| <= |Split(s, '\n')|
    ensures k < |Lines(s)| ==> (Contains(Lines(s)[k], p) <==> Contains(Split(s, '\n')[k], p))
    ensures k >= |Lines(s)| ==> !Contains(Split(s, '\n')[k], p)
  {
    var ps := Split(s, '\n');
    var n := |ps| - 1;
    LinesOfPieces(s);
    if k < n {
      assert Lines(s)[k] == StripCr(ps[k]);
      ContainsStripCr(ps[k], p);
    } else if ps[n] != [] {
      assert Lines(s)[k] == ps[k];
    } else {
      assert k == |Lines(s)| && ps[k] == [];
    }
  }

  /** A pattern that spans no line ending occurs in the text exactly when it occurs
      in one of its lines. */
  lemma LinesMention(s: string, p: string)
    requires |p| > 0 && '\n' !in p && p[|p| - 1] != '\r'
    ensures Contains(s, p) <==> exists k :: 0 <= k < |Lines(s)| && Contains(Lines(s)[k], p)
  {
    if Contains(s, p) {
      LinesMentionForward(s, p);
    }
    if k :| 0 <= k < |Lines(s)| && Contains(Lines(s)[k], p) {
      LinesMentionBackward(s, p, k);
    }
  }

  lemma LinesMentionForward(s: string, p: string)
    requires |p| > 0 && '\n' !in p && p[|p| - 1] != '\r'
    requires Contains(s, p)
    ensures exists k :: 0 <= k < |Lines(s)| && Contains(Lines(s)[k], p)
  {
    var ps := Split(s, '\n');
    var i: nat :| OccursAt(s, p, i);
    JoinOccurs(ps, '\n', p, i);
    var k :| 0 <= k < |ps| && Contains(ps[k], p);
    LinePieceMention(s, p, k);
  }

  lemma LinesMentionBackward(s: string, p: string, k: nat)
    requires |p| > 0 && p[|p| - 1] != '\r'
    requires k < |Lines(s)| && Contains(Lines(s)[k], p)
    ensures Contains(s, p)
  {
    var ps := Split(s, '\n');
    LinePieceMention(s, p, 0);
    LinePieceMention(s, p, k);
    JoinContains(ps, '\n', p, k);
  }

  // ---------------------------------------------------------------------------
  // First matching line
  // ---------------------------------------------------------------------------

  /** The two line tests the detection code passes to `Iterator::find`. */
  datatype LineTest = HasSubstring(pat: string) | HasPrefix(pat: string)

  predicate Holds(t: LineTest, line: string)
  {
    match t
    case HasSubstring(p) => Contains(line, p)
    case HasPrefix(p) => StartsWith(line, p)
  }

  /** `i` is the first index whose line passes `t`. */
  predicate IsFirst(lines: seq<string>, t: LineTest, i: nat)
  {
    i < |lines| && Holds(t, lines[i]) && forall j :: 0 <= j < i ==> !Holds(t, lines[j])
  }

  function FindFrom(lines: seq<string>, t: LineTest, from: nat): (r: Option<nat>)
    requires from <= |lines|
    requires forall j :: 0 <= j < from ==> !Holds(t, lines[j])
    ensures r.Some? ==> IsFirst(lines, t, r.value)
    ensures r.None? ==> forall j :: 0 <= j < |lines| ==> !Holds(t, lines[j])
    decreases |lines| - from
  {
    if from == |lines| then None
    else if Holds(t, lines[from]) then Some(from)
    else FindFrom(lines, t, from + 1)
  }

  /** Rust's `lines.find(test)`: the index of the first line that passes. */
  function FindFirst(lines: seq<string>, t: LineTest): (r: Option<nat>)
    ensures r.Some? ==> IsFirst(lines, t, r.value)
    ensures r.None? ==> forall j :: 0 <= j < |lines| ==> !Holds(t, lines[j])
  {
    FindFrom(lines, t, 0)
  }

  /** There is at most one first index. */
  lemma FirstUnique(lines: seq<string>, t: LineTest, i: nat, j: nat)
    requires IsFirst(lines, t, i) && IsFirst(lines, t, j)
    ensures i == j
  {
  }
}
