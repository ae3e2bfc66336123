/** The environment-variable listing of `check_environment_variables`: each
    important variable with its value, shortened for display when long.

    The program measures and slices the value in UTF-8 bytes (`str::len` and
    `&value[..57]`). Slicing a `str` at a byte offset that falls inside a
    multi-byte character panics, so the program as written crashes on some
    long non-ASCII values. `TruncateAsWritten` models that behaviour, with
    `None` standing for the panic; `Truncate` is the corrected rule, measured
    and cut in characters, and is the one the listing uses. */
module Display {
  import opened Wrappers

  // ---------------------------------------------------------------------------
  // UTF-8 lengths
  // ---------------------------------------------------------------------------

  /** Bytes `c` takes in UTF-8. */
  function Utf8Width(c: char): (w: nat)
    ensures 1 <= w <= 4
    ensures w == 1 <==> c as int < 0x80
  {
    if c as int < 0x80 then 1
    else if c as int < 0x800 then 2
    else if c as int < 0x1_0000 then 3
    else 4
  }

  /** `str::len`: the length in UTF-8 bytes. */
  function Utf8Len(s: string): (n: nat)
    ensures |s| <= n <= 4 * |s|
  {
    if s == [] then 0 else Utf8Len(s[..|s| - 1]) + Utf8Width(s[|s| - 1])
  }

  predicate IsAscii(s: string)
  {
    forall k :: 0 <= k < |s| ==> s[k] as int < 0x80
  }

  lemma {:induction false} Utf8LenAppend(a: string, b: string)
    ensures Utf8Len(a + b) == Utf8Len(a) + Utf8Len(b)
    decreases |b|
  {
    if b == [] {
      assert a + b == a;
    } else {
      var b' := b[..|b| - 1];
      assert (a + b)[..|a + b| - 1] == a + b';
      Utf8LenAppend(a, b');
    }
  }

  lemma {:induction false} Utf8LenOfAscii(s: string)
    requires IsAscii(s)
    ensures Utf8Len(s) == |s|
    decreases |s|
  {
    if s != [] {
      Utf8LenOfAscii(s[..|s| - 1]);
    }
  }

  /** Longer prefixes have strictly more bytes. */
  lemma {:induction false} Utf8LenPrefixGrows(s: string, i: nat, j: nat)
    requires i < j <= |s|
    ensures Utf8Len(s[..i]) < Utf8Len(s[..j])
    decreases j - i
  {
    assert s[..j][..j - 1] == s[..j - 1];
    if i < j - 1 {
      Utf8LenPrefixGrows(s, i, j - 1);
    }
  }

  /** Scanning prefixes from `j` on for one of exactly `b` bytes. */
  function BoundaryFrom(s: string, b: nat, j: nat): (k: Option<nat>)
    requires j <= |s|
    requires forall i :: 0 <= i < j ==> Utf8Len(s[..i]) != b
    requires j > 0 ==> Utf8Len(s[..j - 1]) < b
    ensures k.Some? ==> k.value <= |s| && Utf8Len(s[..k.value]) == b
    ensures k.None? ==> forall i :: 0 <= i <= |s| ==> Utf8Len(s[..i]) != b
    decreases |s| - j
  {
    if Utf8Len(s[..j]) == b then Some(j)
    else if Utf8Len(s[..j]) > b then
      assert forall i :: j < i <= |s| ==> Utf8Len(s[..i]) != b by {
        forall i | j < i <= |s| ensures Utf8Len(s[..i]) != b {
          Utf8LenPrefixGrows(s, j, i);
        }
      }
      None
    else if j == |s| then None
    else BoundaryFrom(s, b, j + 1)
  }

  /** `str::is_char_boundary`: the number of characters that fill exactly the
      first `b` bytes, or None when byte `b` falls inside a character. */
  function CharBoundary(s: string, b: nat): (k: Option<nat>)
    ensures k.Some? ==> k.value <= |s| && Utf8Len(s[..k.value]) == b
    ensures k.None? <==> forall i :: 0 <= i <= |s| ==> Utf8Len(s[..i]) != b
  {
    BoundaryFrom(s, b, 0)
  }

  // ---------------------------------------------------------------------------
  // Truncation
  // ---------------------------------------------------------------------------

  const MaxShown: nat := 60
  const KeptWhenLong: nat := 57
  const Ellipsis: string := "..."

  /** The program's rule in bytes; None is the panic of slicing inside a character. */
  function TruncateAsWritten(value: string): (r: Option<string>)
    ensures Utf8Len(value) <= MaxShown ==> r == Some(value)
    ensures r.None? <==> Utf8Len(value) > MaxShown && forall i :: 0 <= i <= |value| ==> Utf8Len(value[..i]) != KeptWhenLong
    ensures r.Some? ==> Utf8Len(r.value) <= MaxShown
    ensures r.Some? && Utf8Len(value) > MaxShown ==>
      exists k :: 0 <= k <= |value| && Utf8Len(value[..k]) == KeptWhenLong && r.value == value[..k] + Ellipsis
  {
    if Utf8Len(value) > MaxShown then
      match CharBoundary(value, KeptWhenLong)
      case Some(k) =>
        Utf8LenAppend(value[..k], Ellipsis);
        Utf8LenOfAscii(Ellipsis);
        Some(value[..k] + Ellipsis)
      case None => None
    else Some(value)
  }

  /** A 62-byte value whose 57th byte is the second byte of 'é' makes the
      program panic instead of shortening it. */
  lemma TruncateAsWrittenPanics()
    ensures var value := seq(56, _ => 'a') + "ébbbb";
      Utf8Len(value) == 62 && TruncateAsWritten(value).None?
  {
    var a := seq(56, _ => 'a');
    var value := a + "ébbbb";
    assert IsAscii(a);
    Utf8LenOfAscii(a);
    assert value[..57] == a + "é";
    assert (a + "é")[..56] == a;
    assert Utf8Len(value[..57]) == 58;
    Utf8LenAppend(a + "é", "bbbb");
    Utf8LenOfAscii("bbbb");
    assert value == (a + "é") + "bbbb";
    forall i | 0 <= i <= |value|
      ensures Utf8Len(value[..i]) != KeptWhenLong
    {
      if i <= 56 {
        assert value[..i] == a[..i];
        assert IsAscii(a[..i]);
        Utf8LenOfAscii(a[..i]);
      } else if i > 57 {
        Utf8LenPrefixGrows(value, 57, i);
      }
    }
  }

  /** The evidently intended rule: at most 60 characters, a longer value keeping
      its first 57 followed by "...". */
  function Truncate(value: string): (r: string)
    ensures |r| <= MaxShown
    ensures |value| <= MaxShown ==> r == value
    ensures |value| > MaxShown ==> |r| == MaxShown && r == value[..KeptWhenLong] + Ellipsis
  {
    if |value| > MaxShown then value[..KeptWhenLong] + Ellipsis else value
  }

  /** The shown text is a prefix of the value, possibly followed by "...". */
  lemma TruncateKeepsPrefix(value: string)
    ensures var r := Truncate(value);
      (r == value) || (|r| >= |Ellipsis| && r[|r| - |Ellipsis|..] == Ellipsis && r[..|r| - |Ellipsis|] == value[..|r| - |Ellipsis|])
  {
  }

  /** Shortening a shown value again changes nothing. */
  lemma TruncateIdempotent(value: string)
    ensures Truncate(Truncate(value)) == Truncate(value)
  {
  }

  /** On ASCII text, where bytes and characters coincide, the program's rule
      and the corrected one agree. */
  lemma TruncateAgreesOnAscii(value: string)
    requires IsAscii(value)
    ensures TruncateAsWritten(value) == Some(Truncate(value))
  {
    Utf8LenOfAscii(value);
    if |value| > MaxShown {
      assert IsAscii(value[..KeptWhenLong]);
      Utf8LenOfAscii(value[..KeptWhenLong]);
      var k := CharBoundary(value, KeptWhenLong);
      if k.Some? && k.value != KeptWhenLong {
        if k.value < KeptWhenLong {
          Utf8LenPrefixGrows(value, k.value, KeptWhenLong);
        } else {
          Utf8LenPrefixGrows(value, KeptWhenLong, k.value);
        }
      }
    }
  }

  // ---------------------------------------------------------------------------
  // The listing
  // ---------------------------------------------------------------------------

  const ImportantVars: seq<string> :=
    ["CUDA_PATH", "CUDA_HOME", "PATH", "LD_LIBRARY_PATH", "PYTHONPATH", "VIRTUAL_ENV", "CONDA_DEFAULT_ENV"]

  const NotSet: string := "Not set"

  /** One printed line: `   NAME: value`, or `Not set` for a missing variable. */
  function EnvLine(name: string, value: Option<string>): (line: string)
    ensures |name| + 5 <= |line| <= |name| + 5 + MaxShown
    ensures line[..|name| + 5] == "   " + name + ": "
    ensures value.None? ==> line[|name| + 5..] == NotSet
    ensures value.Some? && |value.value| <= MaxShown ==> line[|name| + 5..] == value.value
    ensures value.Some? && |value.value| > MaxShown ==> line[|name| + 5..] == value.value[..KeptWhenLong] + Ellipsis
  {
    "   " + name + ": " + (match value case Some(v) => Truncate(v) case None => NotSet)
  }

  /** The listing for an environment given as a lookup, one line per variable
      in the program's order. */
  function EnvReport(env: string -> Option<string>): (lines: seq<string>)
    ensures |lines| == |ImportantVars|
    ensures forall k :: 0 <= k < |lines| ==> |ImportantVars[k]| + 5 <= |lines[k]| <= |ImportantVars[k]| + 5 + MaxShown
    ensures forall k :: 0 <= k < |lines| ==> lines[k][..|ImportantVars[k]| + 5] == "   " + ImportantVars[k] + ": "
    ensures forall k :: 0 <= k < |lines| && env(ImportantVars[k]).None? ==> lines[k][|ImportantVars[k]| + 5..] == NotSet
    ensures forall k :: 0 <= k < |lines| && env(ImportantVars[k]).Some? ==>
      lines[k][|ImportantVars[k]| + 5..] == Truncate(env(ImportantVars[k]).value)
  {
    seq(|ImportantVars|, k requires 0 <= k < |ImportantVars| => EnvLine(ImportantVars[k], env(ImportantVars[k])))
  }
}
