/** The PHP string primitives the extension relies on (strpos, strrpos,
    explode, implode, trim, str_replace of one character), over `seq<char>`. */
module Strings {
  import opened Wrappers

  /** Index of the last `c` in `s`, as `strrpos`; None where PHP returns false. */
  function LastIndexOf(s: string, c: char): (r: Option<nat>)
    ensures r.Some? ==> r.value < |s| && s[r.value] == c && c !in s[r.value + 1..]
    ensures r.None? ==> c !in s
  {
    if |s| == 0 then None
    else if s[|s| - 1] == c then Some(|s| - 1)
    else
      var r := LastIndexOf(s[..|s| - 1], c);
      assert r.Some? ==> s[r.value + 1..] == s[..|s| - 1][r.value + 1..] + [s[|s| - 1]];
      assert s == s[..|s| - 1] + [s[|s| - 1]];
      r
  }

  /** Index of the first `c` in `s`, as `strpos`; None where PHP returns false. */
  function IndexOf(s: string, c: char): (r: Option<nat>)
    ensures r.Some? ==> r.value < |s| && s[r.value] == c && c !in s[..r.value]
    ensures r.None? ==> c !in s
  {
    if |s| == 0 then None
    else if s[0] == c then Some(0)
    else
      match IndexOf(s[1..], c)
      case None => None
      case Some(i) =>
        assert s[..i + 1] == [s[0]] + s[1..][..i];
        Some(i + 1)
  }

  /** `explode` on a one-character separator: the pieces between the separators. */
  function Split(s: string, c: char): (parts: seq<string>)
    ensures |parts| >= 1
    ensures forall i :: 0 <= i < |parts| ==> c !in parts[i]
    decreases |s|
  {
    match LastIndexOf(s, c)
    case None => [s]
    case Some(i) => Split(s[..i], c) + [s[i + 1..]]
  }

  /** `implode` with a one-character glue. */
  function Join(parts: seq<string>, c: char): string
    requires |parts| >= 1
  {
    if |parts| == 1 then parts[0]
    else Join(parts[..|parts| - 1], c) + [c] + parts[|parts| - 1]
  }

  /** Two pieces joined: the first, the glue, the second. */
  lemma JoinPair(a: string, b: string, c: char)
    ensures Join([a, b], c) == a + [c] + b
  {
    assert [a, b][..1] == [a];
  }

  /** Joining the pieces of a split gives back the string. */
  lemma {:induction false} JoinSplit(s: string, c: char)
    ensures Join(Split(s, c), c) == s
    decreases |s|
  {
    match LastIndexOf(s, c)
    case None =>
    case Some(i) =>
      JoinSplit(s[..i], c);
      var p := Split(s[..i], c);
      assert Split(s, c) == p + [s[i + 1..]];
      assert (p + [s[i + 1..]])[..|p|] == p;
      assert s == s[..i] + [c] + s[i + 1..];
  }

  /** The last separator of `u + [c] + t` is the one before `t` when `t` has none. */
  lemma {:induction false} LastIndexOfAfter(u: string, c: char, t: string)
    requires c !in t
    ensures LastIndexOf(u + [c] + t, c) == Some(|u|)
    decreases |t|
  {
    var s := u + [c] + t;
    if |t| > 0 {
      assert s[..|s| - 1] == u + [c] + t[..|t| - 1];
      LastIndexOfAfter(u, c, t[..|t| - 1]);
    }
  }

  /** The first separator of `u + [c] + t` is the one after `u` when `u` has none. */
  lemma {:induction false} IndexOfBefore(u: string, c: char, t: string)
    requires c !in u
    ensures IndexOf(u + [c] + t, c) == Some(|u|)
    decreases |u|
  {
    var s := u + [c] + t;
    if |u| > 0 {
      assert s[1..] == u[1..] + [c] + t;
      IndexOfBefore(u[1..], c, t);
    }
  }

  /** Splitting a join of separator-free pieces gives back the pieces. */
  lemma {:induction false} SplitJoin(parts: seq<string>, c: char)
    requires |parts| >= 1
    requires forall i :: 0 <= i < |parts| ==> c !in parts[i]
    ensures Split(Join(parts, c), c) == parts
  {
    if |parts| == 1 {
      assert LastIndexOf(parts[0], c).None?;
    } else {
      var front := parts[..|parts| - 1];
      var last := parts[|parts| - 1];
      var j := Join(front, c);
      LastIndexOfAfter(j, c, last);
      var s := j + [c] + last;
      assert s[..|j|] == j;
      assert s[|j| + 1..] == last;
      SplitJoin(front, c);
      assert parts == front + [last];
    }
  }

  /** Splitting `u + [c] + t` where `t` has no separator adds `t` as the last piece. */
  lemma SplitAppend(u: string, c: char, t: string)
    requires c !in t
    ensures Split(u + [c] + t, c) == Split(u, c) + [t]
  {
    var s := u + [c] + t;
    LastIndexOfAfter(u, c, t);
    assert s[..|u|] == u;
    assert s[|u| + 1..] == t;
  }

  /** The characters PHP's `trim` strips by default. */
  predicate IsSpace(ch: char) {
    ch == ' ' || ch == '\t' || ch == '\n' || ch == '\r' || ch == '\0' || ch == '\U{0B}'
  }

  /** `ltrim`: the suffix left after dropping leading white space. */
  function TrimStart(s: string): (r: string)
    ensures |r| <= |s| && r == s[|s| - |r|..]
    ensures forall i :: 0 <= i < |s| - |r| ==> IsSpace(s[i])
    ensures |r| > 0 ==> !IsSpace(r[0])
  {
    if |s| > 0 && IsSpace(s[0]) then TrimStart(s[1..]) else s
  }

  /** `rtrim`: the prefix left after dropping trailing white space. */
  function TrimEnd(s: string): (r: string)
    ensures |r| <= |s| && r == s[..|r|]
    ensures forall i :: |r| <= i < |s| ==> IsSpace(s[i])
    ensures |r| > 0 ==> !IsSpace(r[|r| - 1])
  {
    if |s| > 0 && IsSpace(s[|s| - 1]) then TrimEnd(s[..|s| - 1]) else s
  }

  /** `trim`: white space dropped from both ends, nothing else touched. */
  function Trim(s: string): (r: string)
    ensures |r| > 0 ==> !IsSpace(r[0]) && !IsSpace(r[|r| - 1])
    ensures forall ch :: ch in r ==> ch in s
    ensures |s| > 0 && !IsSpace(s[0]) && !IsSpace(s[|s| - 1]) ==> r == s
  {
    var t := TrimStart(s);
    var r := TrimEnd(t);
    assert forall ch :: ch in r ==> ch in t;
    r
  }

  /** A string with no white space at either end is its own trim. */
  lemma TrimOfUnpadded(s: string)
    requires |s| > 0 && !IsSpace(s[0]) && !IsSpace(s[|s| - 1])
    ensures Trim(s) == s
  {
  }

  /** Trimming twice is trimming once. */
  lemma TrimIdempotent(s: string)
    ensures Trim(Trim(s)) == Trim(s)
  {
  }

  /** `str_replace` of one character by another. */
  function ReplaceChar(s: string, from: char, to: char): (r: string)
    ensures |r| == |s|
    ensures forall i :: 0 <= i < |s| ==> r[i] == (if s[i] == from then to else s[i])
  {
    if |s| == 0 then [] else ReplaceChar(s[..|s| - 1], from, to) + [if s[|s| - 1] == from then to else s[|s| - 1]]
  }

  /** A character other than the replacement is in the result only where it
      was in the input and was not replaced. */
  lemma ReplaceCharMembers(s: string, from: char, to: char, c: char)
    requires c != to
    ensures c in ReplaceChar(s, from, to) ==> c in s && c != from
  {
    var r := ReplaceChar(s, from, to);
    if c in r {
      var i :| 0 <= i < |r| && r[i] == c;
      assert s[i] == c;
    }
  }
}
