/**
 * The Python string built-ins the normaliser relies on: str.strip(),
 * str.replace(pat, ""), str.split(sep), str.join, and the first/last
 * position of a character.
 */
module Text {
  import opened Wrappers

  /** The characters Python's str.isspace() accepts; str.strip() removes them. */
  predicate IsSpace(c: char) {
    ('\t' <= c <= '\r') || ('\U{1C}' <= c <= '\U{1F}') || c == ' '
    || c == '\U{85}' || c == '\U{A0}' || c == '\U{1680}'
    || ('\U{2000}' <= c <= '\U{200A}') || c == '\U{2028}' || c == '\U{2029}'
    || c == '\U{202F}' || c == '\U{205F}' || c == '\U{3000}'
  }

  predicate AllSpace(s: string) {
    forall k :: 0 <= k < |s| ==> IsSpace(s[k])
  }

  /** Neither end of `s` is whitespace: what str.strip() leaves behind. */
  predicate Trimmed(s: string) {
    s == [] || (!IsSpace(s[0]) && !IsSpace(s[|s| - 1]))
  }

  /** The length of the whitespace run at the start of `s`. */
  function LeadingSpaces(s: string): (n: nat)
    ensures n <= |s|
    ensures forall k :: 0 <= k < n ==> IsSpace(s[k])
    ensures n < |s| ==> !IsSpace(s[n])
  {
    if s == [] || !IsSpace(s[0]) then 0 else 1 + LeadingSpaces(s[1..])
  }

  /** The length of the whitespace run at the end of `s`. */
  function TrailingSpaces(s: string): (n: nat)
    ensures n <= |s|
    ensures forall k :: |s| - n <= k < |s| ==> IsSpace(s[k])
    ensures n < |s| ==> !IsSpace(s[|s| - 1 - n])
  {
    if s == [] || !IsSpace(s[|s| - 1]) then 0 else 1 + TrailingSpaces(s[..|s| - 1])
  }

  /**
   * str.strip() with no argument: what it returns is the slice of `s` that
   * starts at the first non-whitespace character, everything after that slice
   * is whitespace, and both ends of the slice are non-whitespace.
   */
  function Strip(s: string): (r: string)
    ensures Trimmed(r)
    ensures LeadingSpaces(s) + |r| <= |s|
    ensures r == s[LeadingSpaces(s)..LeadingSpaces(s) + |r|]
    ensures AllSpace(s[LeadingSpaces(s) + |r|..])
  {
    var a := LeadingSpaces(s);
    if a == |s| then []
    else
      var b := |s| - TrailingSpaces(s);
      assert a < b;
      s[a..b]
  }

  lemma {:induction false} LeadingSpacesOf(p: string, rest: string)
    requires AllSpace(p) && (rest == [] || !IsSpace(rest[0]))
    ensures LeadingSpaces(p + rest) == |p|
  {
    if p != [] {
      assert (p + rest)[1..] == p[1..] + rest;
      LeadingSpacesOf(p[1..], rest);
    } else {
      assert p + rest == rest;
    }
  }

  lemma {:induction false} TrailingSpacesOf(rest: string, q: string)
    requires AllSpace(q) && (rest == [] || !IsSpace(rest[|rest| - 1]))
    ensures TrailingSpaces(rest + q) == |q|
  {
    if q != [] {
      var s := rest + q;
      assert s[|s| - 1] == q[|q| - 1];
      assert s[..|s| - 1] == rest + q[..|q| - 1];
      TrailingSpacesOf(rest, q[..|q| - 1]);
    } else {
      assert rest + q == rest;
    }
  }

  /** Strip is the only way to write `s` as whitespace, a trimmed core, whitespace. */
  lemma StripUnique(p: string, r: string, q: string)
    requires AllSpace(p) && AllSpace(q) && Trimmed(r)
    ensures Strip(p + r + q) == r
  {
    var s := p + r + q;
    if r == [] {
      assert s == p + q;
      assert AllSpace(s);
      LeadingSpacesOf(s, []);
      assert s + [] == s;
    } else {
      assert s == p + (r + q);
      LeadingSpacesOf(p, r + q);
      TrailingSpacesOf(p + r, q);
      assert s[|p|..|s| - |q|] == r;
    }
  }

  lemma StripTrimmed(s: string)
    requires Trimmed(s)
    ensures Strip(s) == s
  {
    StripUnique([], s, []);
    assert [] + s + [] == s;
  }

  /** Every character of Strip(s) comes from `s`. */
  lemma StripKeepsChars(s: string, c: char)
    requires c !in s
    ensures c !in Strip(s)
  {
    var r := Strip(s);
    var a := LeadingSpaces(s);
    forall k | 0 <= k < |r| ensures r[k] != c {
      assert r[k] == s[a + k];
    }
  }

  /**
   * s.replace(pat, ""): scans left to right and deletes each occurrence of
   * `pat` it meets, resuming right after it. Replacing "" by "" leaves `s` as
   * it is.
   */
  function RemoveAll(s: string, pat: string): (r: string)
    ensures |r| <= |s|
    decreases |s|
  {
    if pat == [] then s
    else if pat <= s then RemoveAll(s[|pat|..], pat)
    else if s == [] then []
    else [s[0]] + RemoveAll(s[1..], pat)
  }

  /** Text that cannot start an occurrence is kept as it is. */
  lemma {:induction false} RemoveAllKeepsPrefix(a: string, b: string, pat: string)
    requires pat != [] && pat[0] !in a
    ensures RemoveAll(a + b, pat) == a + RemoveAll(b, pat)
    decreases |a|
  {
    if a != [] {
      var rest := RemoveAll(b, pat);
      calc {
        RemoveAll(a + b, pat);
      == { assert (a + b)[0] == a[0]; RemoveAllStep(a + b, pat); assert (a + b)[1..] == a[1..] + b; }
        [a[0]] + RemoveAll(a[1..] + b, pat);
      == { RemoveAllKeepsPrefix(a[1..], b, pat); }
        [a[0]] + (a[1..] + rest);
      == { assert [a[0]] + a[1..] == a; }
        a + rest;
      }
    } else {
      assert a + b == b;
    }
  }

  /** One step of the scan at a character that cannot start an occurrence. */
  lemma RemoveAllStep(s: string, pat: string)
    requires pat != [] && s != [] && s[0] != pat[0]
    ensures RemoveAll(s, pat) == [s[0]] + RemoveAll(s[1..], pat)
  {
    assert !(pat <= s) by { assert pat[0] != s[0]; }
  }

  /** `pat` occurs in `s` at some position. */
  predicate Occurs(s: string, pat: string) {
    exists i :: 0 <= i <= |s| && pat <= s[i..]
  }

  /** Where `pat` does not occur, replace changes nothing. */
  lemma {:induction false} RemoveAllNoOccurrence(s: string, pat: string)
    requires !Occurs(s, pat)
    ensures RemoveAll(s, pat) == s
    decreases |s|
  {
    assert s[0..] == s;
    assert !(pat <= s);
    if s != [] {
      assert !Occurs(s[1..], pat) by {
        forall i | 0 <= i <= |s[1..]| ensures !(pat <= s[1..][i..]) {
          assert s[1..][i..] == s[i + 1..];
        }
      }
      RemoveAllNoOccurrence(s[1..], pat);
      assert [s[0]] + s[1..] == s;
    }
  }

  /** Without the first character of `pat`, replace changes nothing. */
  lemma RemoveAllAbsent(s: string, pat: string)
    requires pat != [] && pat[0] !in s
    ensures RemoveAll(s, pat) == s
  {
    RemoveAllKeepsPrefix(s, [], pat);
    assert s + [] == s;
  }

  /** A run of three backticks, the Markdown code-fence marker, starts at `i`. */
  predicate FenceAt(s: string, i: int) {
    0 <= i && i + 3 <= |s| && s[i] == '`' && s[i + 1] == '`' && s[i + 2] == '`'
  }

  predicate NoFence(s: string) {
    forall i :: 0 <= i < |s| ==> !FenceAt(s, i)
  }

  /** Deleting fences never puts a backtick at the front that was not there. */
  lemma RemovedStartsWithTick(s: string)
    requires RemoveAll(s, "```") != [] && RemoveAll(s, "```")[0] == '`'
    ensures s != [] && s[0] == '`'
  {
  }

  lemma RemovedStartsWithTwoTicks(s: string)
    requires |RemoveAll(s, "```")| >= 2
    requires RemoveAll(s, "```")[0] == '`' && RemoveAll(s, "```")[1] == '`'
    ensures |s| >= 2 && s[0] == '`' && s[1] == '`'
  {
    if !("```" <= s) {
      assert RemoveAll(s, "```") == [s[0]] + RemoveAll(s[1..], "```");
      RemovedStartsWithTick(s[1..]);
    }
  }

  /** After s.replace("```", "") no fence marker is left, even where deletions meet. */
  lemma {:induction false} RemoveAllLeavesNoFence(s: string)
    ensures NoFence(RemoveAll(s, "```"))
    decreases |s|
  {
    var r := RemoveAll(s, "```");
    if "```" <= s {
      RemoveAllLeavesNoFence(s[3..]);
    } else if s != [] {
      var t := RemoveAll(s[1..], "```");
      RemoveAllLeavesNoFence(s[1..]);
      assert r == [s[0]] + t;
      forall i | 0 <= i < |r| ensures !FenceAt(r, i) {
        if i == 0 {
          if |t| >= 2 && t[0] == '`' && t[1] == '`' {
            RemovedStartsWithTwoTicks(s[1..]);
          }
        } else {
          assert !FenceAt(t, i - 1);
        }
      }
    }
  }

  /** No fence marker appears in Strip(s) if none appears in `s`. */
  lemma StripKeepsNoFence(s: string)
    requires NoFence(s)
    ensures NoFence(Strip(s))
  {
    var r := Strip(s);
    var a := LeadingSpaces(s);
    forall i | 0 <= i < |r| ensures !FenceAt(r, i) {
      assert !FenceAt(s, a + i);
    }
  }

  /** s.split(sep) for a one-character separator. */
  function Split(s: string, sep: char): (r: seq<string>)
    ensures |r| >= 1
  {
    if s == [] then [""]
    else
      var rest := Split(s[1..], sep);
      if s[0] == sep then [""] + rest
      else [[s[0]] + rest[0]] + rest[1..]
  }

  /** No piece of a split contains the separator. */
  lemma {:induction false} SplitPiecesAvoid(s: string, sep: char)
    ensures forall k :: 0 <= k < |Split(s, sep)| ==> sep !in Split(s, sep)[k]
  {
    if s != [] {
      SplitPiecesAvoid(s[1..], sep);
      var rest := Split(s[1..], sep);
      if s[0] != sep {
        assert sep !in [s[0]] + rest[0];
      }
    }
  }

  /** sep.join(parts). */
  function Join(sep: string, parts: seq<string>): string {
    if parts == [] then ""
    else if |parts| == 1 then parts[0]
    else parts[0] + sep + Join(sep, parts[1..])
  }

  /** Joining the pieces of a split with the separator gives the text back. */
  lemma {:induction false} JoinSplit(s: string, sep: char)
    ensures Join([sep], Split(s, sep)) == s
  {
    if s != [] {
      var rest := Split(s[1..], sep);
      JoinSplit(s[1..], sep);
      if s[0] == sep {
        assert Split(s, sep) == [""] + rest;
        assert ([""] + rest)[1..] == rest;
      } else {
        var r := Split(s, sep);
        assert r == [[s[0]] + rest[0]] + rest[1..];
        if |rest| == 1 {
          assert r == [[s[0]] + rest[0]];
        } else {
          assert r[1..] == rest[1..];
          assert Join([sep], rest) == rest[0] + [sep] + Join([sep], rest[1..]);
        }
      }
    }
  }

  /** Splitting a join of separator-free pieces gives the pieces back. */
  lemma {:induction false} SplitJoin(parts: seq<string>, sep: char)
    requires |parts| >= 1
    requires forall k :: 0 <= k < |parts| ==> sep !in parts[k]
    ensures Split(Join([sep], parts), sep) == parts
  {
    if |parts| == 1 {
      SplitNoSep(parts[0], sep);
    } else {
      SplitJoin(parts[1..], sep);
      SplitConcat(parts[0], Join([sep], parts[1..]), sep);
      SplitNoSep(parts[0], sep);
      assert [parts[0]] + parts[1..] == parts;
    }
  }

  lemma {:induction false} SplitNoSep(s: string, sep: char)
    requires sep !in s
    ensures Split(s, sep) == [s]
  {
    if s != [] {
      SplitNoSep(s[1..], sep);
      assert [s[0]] + s[1..] == s;
    }
  }

  /** Splitting at a separator splits the pieces of either side. */
  lemma SplitConcat(a: string, b: string, sep: char)
    ensures Split(a + [sep] + b, sep) == Split(a, sep) + Split(b, sep)
  {
    var s := a + [sep] + b;
    assert s[..|a|] == a;
    assert s[|a| + 1..] == b;
    SplitAt(s, |a|, sep);
  }

  /** Splitting at any one separator splits the text into the pieces before it and after it. */
  lemma {:induction false} SplitAt(s: string, i: nat, sep: char)
    requires i < |s| && s[i] == sep
    ensures Split(s, sep) == Split(s[..i], sep) + Split(s[i + 1..], sep)
    decreases i
  {
    if i > 0 {
      var u := s[1..];
      SplitAt(u, i - 1, sep);
      assert u[..i - 1] == s[..i][1..];
      assert u[i..] == s[i + 1..];
      var rp, rb := Split(u[..i - 1], sep), Split(s[i + 1..], sep);
      if s[0] != sep {
        assert (rp + rb)[0] == rp[0] && (rp + rb)[1..] == rp[1..] + rb;
      }
    }
  }

  /** Joining two non-empty lists puts one separator between their joins. */
  lemma {:induction false} JoinAppend(sep: string, x: seq<string>, y: seq<string>)
    requires x != [] && y != []
    ensures Join(sep, x + y) == Join(sep, x) + sep + Join(sep, y)
  {
    if |x| == 1 {
      assert (x + y)[1..] == y;
    } else {
      assert (x + y)[1..] == x[1..] + y;
      JoinAppend(sep, x[1..], y);
    }
  }

  /** The index of the first `c` in `s`, like str.find; None for -1. */
  function IndexOf(s: string, c: char): (r: Option<nat>)
    ensures r.Some? ==> r.value < |s| && s[r.value] == c
                        && forall k :: 0 <= k < r.value ==> s[k] != c
    ensures r.None? ==> c !in s
  {
    if s == [] then None
    else if s[0] == c then Some(0)
    else match IndexOf(s[1..], c)
      case None => None
      case Some(i) => Some(i + 1)
  }

  /** The index of the last `c` in `s`, like str.rfind; None for -1. */
  function LastIndexOf(s: string, c: char): (r: Option<nat>)
    ensures r.Some? ==> r.value < |s| && s[r.value] == c
                        && forall k :: r.value < k < |s| ==> s[k] != c
    ensures r.None? ==> c !in s
  {
    if s == [] then None
    else if s[|s| - 1] == c then Some(|s| - 1)
    else LastIndexOf(s[..|s| - 1], c)
  }
}
