/**
 * The handful of Python `str` operations the views and the user manager
 * rely on: `strip()`, `lower()` restricted to ASCII, `split(sep)`, the
 * `rsplit('@', 1)` search for the last separator, and the plain
 * lexicographic order used for `order_by('-name')`.
 */
module Text {
  import opened Wrappers

  /** Python's `str.isspace()` for one character (ASCII and Unicode spaces). */
  predicate IsSpace(c: char) {
    || ('\t' <= c <= '\r')
    || ('\U{1C}' <= c <= '\U{1F}')
    || c == ' '
    || c == '\U{85}'
    || c == '\U{A0}'
    || c == '\U{1680}'
    || ('\U{2000}' <= c <= '\U{200A}')
    || c == '\U{2028}'
    || c == '\U{2029}'
    || c == '\U{202F}'
    || c == '\U{205F}'
    || c == '\U{3000}'
  }

  /** Drops leading white space; the result is a suffix of `s`. */
  function StripStart(s: string): (r: string)
    ensures |r| <= |s| && r == s[|s| - |r|..]
    ensures |r| > 0 ==> !IsSpace(r[0])
    ensures forall k :: 0 <= k < |s| - |r| ==> IsSpace(s[k])
  {
    if |s| > 0 && IsSpace(s[0]) then StripStart(s[1..]) else s
  }

  /** Drops trailing white space; the result is a prefix of `s`. */
  function StripEnd(s: string): (r: string)
    ensures |r| <= |s| && r == s[..|r|]
    ensures |r| > 0 ==> !IsSpace(r[|r| - 1])
    ensures forall k :: |r| <= k < |s| ==> IsSpace(s[k])
  {
    if |s| > 0 && IsSpace(s[|s| - 1]) then StripEnd(s[..|s| - 1]) else s
  }

  /** Python's `str.strip()` with no argument. */
  function Strip(s: string): (r: string)
    ensures |r| <= |s|
    ensures |r| > 0 ==> !IsSpace(r[0]) && !IsSpace(r[|r| - 1])
  {
    StripEnd(StripStart(s))
  }

  /** A string that starts and ends with non-space characters is its own strip. */
  lemma StripKeepsTrimmed(s: string)
    requires |s| > 0 ==> !IsSpace(s[0]) && !IsSpace(s[|s| - 1])
    ensures Strip(s) == s
  {
  }

  /**
   * `strip()` cuts exactly the white space around a core that starts and
   * ends with other characters; an all-space text strips to nothing.
   */
  lemma StripPadded(lead: string, core: string, trail: string)
    requires forall k :: 0 <= k < |lead| ==> IsSpace(lead[k])
    requires forall k :: 0 <= k < |trail| ==> IsSpace(trail[k])
    requires |core| > 0 ==> !IsSpace(core[0]) && !IsSpace(core[|core| - 1])
    ensures Strip(lead + core + trail) == core
  {
    AppendAssoc(lead, core, trail);
    if |core| == 0 {
      assert lead + core + trail == (lead + trail) + core;
      StripStartPadded(lead + trail, core);
    } else {
      StripStartPadded(lead, core + trail);
      StripEndPadded(core, trail);
    }
  }

  lemma {:induction false} StripStartPadded(lead: string, x: string)
    requires forall k :: 0 <= k < |lead| ==> IsSpace(lead[k])
    requires |x| > 0 ==> !IsSpace(x[0])
    ensures StripStart(lead + x) == x
    decreases |lead|
  {
    if |lead| == 0 {
      assert lead + x == x;
    } else {
      HeadOfConcat(lead, x);
      StripStartPadded(lead[1..], x);
    }
  }

  lemma {:induction false} StripEndPadded(x: string, trail: string)
    requires forall k :: 0 <= k < |trail| ==> IsSpace(trail[k])
    requires |x| > 0 && !IsSpace(x[|x| - 1])
    ensures StripEnd(x + trail) == x
    decreases |trail|
  {
    if |trail| == 0 {
      assert x + trail == x;
    } else {
      var xt := x + trail;
      assert xt[|xt| - 1] == trail[|trail| - 1];
      assert xt[..|xt| - 1] == x + trail[..|trail| - 1];
      StripEndPadded(x, trail[..|trail| - 1]);
    }
  }

  predicate IsUpper(c: char) {
    'A' <= c <= 'Z'
  }

  /** Python's `str.lower()` on one character, restricted to ASCII letters. */
  function LowerChar(c: char): (d: char)
    ensures !IsUpper(d)
    ensures IsUpper(c) ==> d as int == c as int + 32
    ensures !IsUpper(c) ==> d == c
  {
    if IsUpper(c) then (c as int + 32) as char else c
  }

  /** Python's `str.lower()`, restricted to ASCII letters. */
  function Lower(s: string): (r: string)
    ensures |r| == |s|
    ensures forall k :: 0 <= k < |s| ==> r[k] == LowerChar(s[k])
    ensures forall k :: 0 <= k < |r| ==> !IsUpper(r[k])
  {
    if |s| == 0 then "" else [LowerChar(s[0])] + Lower(s[1..])
  }

  /** Lower-casing changes nothing in a string without upper-case letters. */
  lemma LowerKeepsLower(s: string)
    requires forall k :: 0 <= k < |s| ==> !IsUpper(s[k])
    ensures Lower(s) == s
  {
  }

  /** The position of the last `c` in `s`, if any: where `rsplit(c, 1)` cuts. */
  function LastIndexOf(s: string, c: char): (r: Option<nat>)
    ensures r.None? <==> c !in s
    ensures r.Some? ==> r.value < |s| && s[r.value] == c && c !in s[r.value + 1..]
  {
    if |s| == 0 then None
    else if s[|s| - 1] == c then Some(|s| - 1)
    else
      var init := s[..|s| - 1];
      assert s == init + [s[|s| - 1]];
      match LastIndexOf(init, c)
      case None => None
      case Some(i) =>
        assert s[i + 1..] == init[i + 1..] + [s[|s| - 1]];
        Some(i)
  }

  /** Glues `parts` together with `sep` between neighbours: Python's `sep.join`. */
  function Join(parts: seq<string>, sep: char): string
    decreases |parts|
  {
    if |parts| == 0 then ""
    else if |parts| == 1 then parts[0]
    else parts[0] + [sep] + Join(parts[1..], sep)
  }

  /**
   * Python's `s.split(sep)`, read left to right: a separator starts a new
   * piece, any other character extends the current one. There is always at
   * least one piece, and two adjacent separators give an empty piece
   * between them.
   */
  function Split(s: string, sep: char): (parts: seq<string>)
    ensures |parts| >= 1
    ensures forall k :: 0 <= k < |parts| ==> sep !in parts[k]
    decreases |s|
  {
    if |s| == 0 then [""]
    else
      var rest := Split(s[1..], sep);
      if s[0] == sep then [""] + rest
      else [[s[0]] + rest[0]] + rest[1..]
  }

  /** Without a separator there is one piece, the whole string. */
  lemma {:induction false} SplitNone(s: string, sep: char)
    requires sep !in s
    ensures Split(s, sep) == [s]
    decreases |s|
  {
    if |s| > 0 {
      SplitNone(s[1..], sep);
      assert s == [s[0]] + s[1..];
    }
  }

  lemma HeadOfConcat<T>(p: seq<T>, q: seq<T>)
    requires |p| > 0
    ensures (p + q)[0] == p[0] && (p + q)[1..] == p[1..] + q
  {
  }

  /** Splitting at a separator splits each side independently. */
  lemma {:induction false} SplitAround(a: string, b: string, sep: char)
    ensures Split(a + [sep] + b, sep) == Split(a, sep) + Split(b, sep)
    decreases |a|
  {
    if |a| == 0 {
      assert a + [sep] + b == [sep] + b;
      assert ([sep] + b)[1..] == b;
    } else {
      SplitAround(a[1..], b, sep);
      SplitAroundStep(a, b, sep);
    }
  }

  /** The inductive step of `SplitAround`, from the tail of `a` to `a`. */
  lemma SplitAroundStep(a: string, b: string, sep: char)
    requires |a| > 0
    requires Split(a[1..] + [sep] + b, sep) == Split(a[1..], sep) + Split(b, sep)
    ensures Split(a + [sep] + b, sep) == Split(a, sep) + Split(b, sep)
  {
    var p, q := Split(a[1..], sep), Split(b, sep);
    DropConcat(a, sep, b);
    if a[0] == sep {
      AppendAssoc([""], p, q);
    } else {
      HeadOfConcat(p, q);
      AppendAssoc([[a[0]] + p[0]], p[1..], q);
    }
  }

  lemma AppendAssoc<T>(x: seq<T>, p: seq<T>, q: seq<T>)
    ensures x + (p + q) == (x + p) + q
  {
  }

  lemma DropConcat<T>(x: seq<T>, m: T, y: seq<T>)
    requires |x| > 0
    ensures (x + [m] + y)[0] == x[0]
    ensures (x + [m] + y)[1..] == x[1..] + [m] + y
  {
  }

  /** Joining the pieces of a split back together gives the original string. */
  lemma {:induction false} JoinSplit(s: string, sep: char)
    ensures Join(Split(s, sep), sep) == s
    decreases |s|
  {
    if |s| > 0 {
      var rest := Split(s[1..], sep);
      JoinSplit(s[1..], sep);
      if s[0] == sep {
        assert ([""] + rest)[1..] == rest;
      } else {
        var parts := [[s[0]] + rest[0]] + rest[1..];
        if |rest| == 1 {
          assert parts == [[s[0]] + rest[0]];
        } else {
          assert parts[1..] == rest[1..];
          assert Join(rest, sep) == rest[0] + [sep] + Join(rest[1..], sep);
        }
      }
    }
  }

  /** Splitting a join of separator-free pieces gives the pieces back. */
  lemma {:induction false} SplitJoin(parts: seq<string>, sep: char)
    requires |parts| >= 1
    requires forall k :: 0 <= k < |parts| ==> sep !in parts[k]
    ensures Split(Join(parts, sep), sep) == parts
    decreases |parts|
  {
    SplitNone(parts[0], sep);
    if |parts| > 1 {
      SplitJoin(parts[1..], sep);
      SplitAround(parts[0], Join(parts[1..], sep), sep);
      assert [parts[0]] + parts[1..] == parts;
    }
  }

  /**
   * `a` sorts at or before `b` in plain lexicographic order of code points:
   * a proper prefix sorts first.
   */
  predicate StrLe(a: string, b: string)
    decreases |a|
  {
    || |a| == 0
    || (|b| > 0 && (a[0] < b[0] || (a[0] == b[0] && StrLe(a[1..], b[1..]))))
  }

  lemma {:induction false} StrLeReflexive(a: string)
    ensures StrLe(a, a)
    decreases |a|
  {
    if |a| > 0 {
      StrLeReflexive(a[1..]);
    }
  }

  lemma {:induction false} StrLeTotal(a: string, b: string)
    ensures StrLe(a, b) || StrLe(b, a)
    decreases |a|
  {
    if |a| > 0 && |b| > 0 && a[0] == b[0] {
      StrLeTotal(a[1..], b[1..]);
    }
  }

  lemma {:induction false} StrLeTransitive(a: string, b: string, c: string)
    requires StrLe(a, b) && StrLe(b, c)
    ensures StrLe(a, c)
    decreases |a|
  {
    if |a| > 0 && a[0] == b[0] && b[0] == c[0] {
      StrLeTransitive(a[1..], b[1..], c[1..]);
    }
  }

  lemma {:induction false} StrLeAntisymmetric(a: string, b: string)
    requires StrLe(a, b) && StrLe(b, a)
    ensures a == b
    decreases |a|
  {
    if |a| > 0 {
      StrLeAntisymmetric(a[1..], b[1..]);
      assert a == [a[0]] + a[1..];
      assert b == [b[0]] + b[1..];
    }
  }
}
