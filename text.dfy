/**
 * String splitting and joining with multi-character separators, as the
 * message layer uses them: `str::split`, `str::splitn(2, _)` and
 * `[String]::join` over `seq<char>`.
 *
 * `Split` cuts at the leftmost occurrence of the separator and carries on
 * after the end of that occurrence, so occurrences never overlap; splitting a
 * text that does not contain the separator gives the text itself as the one
 * piece, and an empty text gives one empty piece.
 */
module Text {

  datatype Option<T> = None | Some(value: T)

  /** Line terminator of HTTP/1.1 (section 2.1 of RFC 9112). */
  const CRLF: string := "\r\n"
  /** An empty line after a line terminator: the end of the field section. */
  const DoubleCRLF: string := "\r\n\r\n"
  /** What separates a field name from its value in a field line. */
  const FieldSep: string := ": "

  /** `sep` occurs in `s` starting at index `i`. */
  ghost predicate OccursAt(s: string, sep: string, i: int)
  {
    0 <= i && i + |sep| <= |s| && s[i..i + |sep|] == sep
  }

  ghost predicate Contains(s: string, sep: string)
  {
    exists i :: OccursAt(s, sep, i)
  }

  /**
   * No proper suffix of `sep` is also a prefix of it, so two occurrences of
   * `sep` can never overlap.
   */
  ghost predicate NoBorder(sep: string)
  {
    forall k :: 0 < k < |sep| ==> sep[k..] != sep[..|sep| - k]
  }

  /** The index of the leftmost occurrence of `sep` in `s` at or after `from`, if any. */
  function FindFrom(s: string, sep: string, from: nat): (r: Option<nat>)
    requires |sep| > 0
    ensures r.Some? ==> from <= r.value && r.value + |sep| <= |s|
    decreases |s| - from
  {
    if from + |sep| > |s| then None
    else if s[from..from + |sep|] == sep then Some(from)
    else FindFrom(s, sep, from + 1)
  }

  /** The index of the leftmost occurrence of `sep` in `s`, if any. */
  function Find(s: string, sep: string): (r: Option<nat>)
    requires |sep| > 0
    ensures r.Some? ==> r.value + |sep| <= |s|
  {
    FindFrom(s, sep, 0)
  }

  /** `FindFrom` reports the first occurrence at or after `from`, or that there is none. */
  lemma {:induction false} FindFromSpec(s: string, sep: string, from: nat)
    requires |sep| > 0
    ensures FindFrom(s, sep, from).Some? ==> OccursAt(s, sep, FindFrom(s, sep, from).value)
    ensures FindFrom(s, sep, from).Some? ==>
      forall j :: from <= j < FindFrom(s, sep, from).value ==> !OccursAt(s, sep, j)
    ensures FindFrom(s, sep, from).None? ==> forall j :: from <= j ==> !OccursAt(s, sep, j)
    decreases |s| - from
  {
    if from + |sep| > |s| {
    } else if s[from..from + |sep|] == sep {
    } else {
      FindFromSpec(s, sep, from + 1);
    }
  }

  /** `Find` reports the leftmost occurrence, or that there is none. */
  lemma FindSpec(s: string, sep: string)
    requires |sep| > 0
    ensures Find(s, sep).Some? ==> OccursAt(s, sep, Find(s, sep).value)
    ensures Find(s, sep).Some? ==> forall j :: 0 <= j < Find(s, sep).value ==> !OccursAt(s, sep, j)
    ensures Find(s, sep).None? ==> !Contains(s, sep)
  {
    FindFromSpec(s, sep, 0);
  }

  /** An occurrence with none before it is the one `Find` returns. */
  lemma FindIs(s: string, sep: string, i: nat)
    requires |sep| > 0 && OccursAt(s, sep, i)
    requires forall j :: 0 <= j < i ==> !OccursAt(s, sep, j)
    ensures Find(s, sep) == Some(i)
  {
    FindSpec(s, sep);
  }

  /** A text without the separator has no occurrence to find. */
  lemma FindNone(s: string, sep: string)
    requires |sep| > 0 && !Contains(s, sep)
    ensures Find(s, sep) == None
  {
    FindSpec(s, sep);
  }

  /** The separated pieces of `s[from..]`. */
  function SplitFrom(s: string, sep: string, from: nat): (parts: seq<string>)
    requires |sep| > 0 && from <= |s|
    ensures |parts| >= 1
    decreases |s| - from
  {
    match FindFrom(s, sep, from)
    case None => [s[from..]]
    case Some(i) => [s[from..i]] + SplitFrom(s, sep, i + |sep|)
  }

  /** The separated pieces of `s`, as Rust's `s.split(sep).collect()`. */
  function Split(s: string, sep: string): (parts: seq<string>)
    requires |sep| > 0
    ensures |parts| >= 1
  {
    SplitFrom(s, sep, 0)
  }

  /** Searching `s` from `d + k` is searching `s[d..]` from `k`, shifted by `d`. */
  lemma {:induction false} FindFromShift(s: string, sep: string, d: nat, k: nat)
    requires |sep| > 0 && d <= |s|
    ensures FindFrom(s, sep, d + k).None? <==> FindFrom(s[d..], sep, k).None?
    ensures FindFrom(s, sep, d + k).Some? ==>
      FindFrom(s, sep, d + k).value == d + FindFrom(s[d..], sep, k).value
    decreases |s| - d - k
  {
    var t := s[d..];
    if d + k + |sep| <= |s| {
      assert s[d + k..d + k + |sep|] == t[k..k + |sep|];
      if t[k..k + |sep|] != sep {
        FindFromShift(s, sep, d, k + 1);
      }
    }
  }

  lemma SplitFromFound(s: string, sep: string, from: nat, i: nat)
    requires |sep| > 0 && from <= |s| && FindFrom(s, sep, from) == Some(i)
    ensures SplitFrom(s, sep, from) == [s[from..i]] + SplitFrom(s, sep, i + |sep|)
  {
  }

  lemma SplitFromNotFound(s: string, sep: string, from: nat)
    requires |sep| > 0 && from <= |s| && FindFrom(s, sep, from) == None
    ensures SplitFrom(s, sep, from) == [s[from..]]
  {
  }

  /** Splitting `s` from `d + k` is splitting `s[d..]` from `k`. */
  lemma {:induction false} SplitFromShift(s: string, sep: string, d: nat, k: nat)
    requires |sep| > 0 && d + k <= |s|
    ensures SplitFrom(s, sep, d + k) == SplitFrom(s[d..], sep, k)
    decreases |s| - d - k, 1
  {
    var t := s[d..];
    FindFromShift(s, sep, d, k);
    match FindFrom(t, sep, k)
    case None =>
      SplitFromNotFound(s, sep, d + k);
      SplitFromNotFound(t, sep, k);
      assert s[d + k..] == t[k..];
    case Some(i) =>
      SplitFromShiftFound(s, sep, d, k, i);
  }

  /** The same, when the search of `s[d..]` from `k` finds `i`. */
  lemma {:induction false} SplitFromShiftFound(s: string, sep: string, d: nat, k: nat, i: nat)
    requires |sep| > 0 && d + k <= |s|
    requires FindFrom(s[d..], sep, k) == Some(i) && FindFrom(s, sep, d + k) == Some(d + i)
    ensures SplitFrom(s, sep, d + k) == SplitFrom(s[d..], sep, k)
    decreases |s| - d - k, 0
  {
    var t := s[d..];
    var next := i + |sep|;
    SplitFromFound(s, sep, d + k, d + i);
    SplitFromFound(t, sep, k, i);
    SliceOfSuffix(s, d, k, i);
    SplitFromShift(s, sep, d, next);
  }

  lemma SliceOfSuffix(s: string, d: nat, a: nat, b: nat)
    requires d + a <= d + b <= |s|
    ensures s[d..][a..b] == s[d + a..d + b]
  {
  }

  /** At most two pieces, as Rust's `s.splitn(2, sep).collect()`. */
  function SplitOnce(s: string, sep: string): (parts: seq<string>)
    requires |sep| > 0
    ensures 1 <= |parts| <= 2
    ensures |parts| == 1 <==> !Contains(s, sep)
    ensures |parts| == 1 ==> parts[0] == s
    ensures |parts| == 2 ==> s == parts[0] + sep + parts[1]
    ensures !Contains(parts[0], sep)
  {
    FindSpec(s, sep);
    match Find(s, sep)
    case None => [s]
    case Some(i) =>
      FindSpec(s, sep);
      PrefixBeforeFirst(s, sep, i);
      [s[..i], s[i + |sep|..]]
  }

  /** The pieces with `sep` between each two, as Rust's `parts.join(sep)`. */
  function Join(parts: seq<string>, sep: string): (s: string)
  {
    if |parts| == 0 then ""
    else if |parts| == 1 then parts[0]
    else parts[0] + sep + Join(parts[1..], sep)
  }

  /** Nothing before the leftmost occurrence contains the separator. */
  lemma PrefixBeforeFirst(s: string, sep: string, i: nat)
    requires |sep| > 0 && i <= |s|
    requires forall j :: 0 <= j < i ==> !OccursAt(s, sep, j)
    ensures !Contains(s[..i], sep)
  {
    forall j | 0 <= j && j + |sep| <= i
      ensures !OccursAt(s[..i], sep, j)
    {
      assert s[..i][j..j + |sep|] == s[j..j + |sep|];
      assert !OccursAt(s, sep, j);
    }
  }

  /** When `Find` reports `i`, the first piece ends there and the rest is split on. */
  lemma SplitAtFound(s: string, sep: string, i: nat)
    requires |sep| > 0 && Find(s, sep) == Some(i)
    ensures Split(s, sep) == [s[..i]] + Split(s[i + |sep|..], sep)
  {
    SplitFromShift(s, sep, i + |sep|, 0);
  }

  /** When `Find` reports nothing, the text is the one piece. */
  lemma SplitNotFound(s: string, sep: string)
    requires |sep| > 0 && Find(s, sep) == None
    ensures Split(s, sep) == [s]
  {
  }

  /**
   * The first piece is a prefix of the text; it is the whole text when it is
   * the only piece, and otherwise the separator follows it.
   */
  lemma SplitFirst(s: string, sep: string)
    requires |sep| > 0
    ensures |Split(s, sep)[0]| <= |s| && s[..|Split(s, sep)[0]|] == Split(s, sep)[0]
    ensures |Split(s, sep)| == 1 ==> Split(s, sep)[0] == s
    ensures |Split(s, sep)| > 1 ==> OccursAt(s, sep, |Split(s, sep)[0]|)
  {
    FindSpec(s, sep);
    match Find(s, sep)
    case None =>
      SplitNotFound(s, sep);
    case Some(i) =>
      SplitAtFound(s, sep, i);
      var parts := Split(s, sep);
      assert parts[0] == s[..i];
  }

  /** Past the first piece and the separator after it, the rest of the text splits into the other pieces. */
  lemma SplitRest(s: string, sep: string, k: nat)
    requires |sep| > 0 && |Split(s, sep)| > 1 && k == |Split(s, sep)[0]|
    ensures k + |sep| <= |s| && Split(s, sep)[1..] == Split(s[k + |sep|..], sep)
  {
    assert Find(s, sep).Some?;
    var i := Find(s, sep).value;
    SplitAtFound(s, sep, i);
    var parts := Split(s, sep);
    assert parts[0] == s[..i];
    assert parts[1..] == Split(s[i + |sep|..], sep);
  }

  /** Joining the pieces of a split gives back the text. */
  lemma {:induction false} JoinSplit(s: string, sep: string)
    requires |sep| > 0
    ensures Join(Split(s, sep), sep) == s
    decreases |s|
  {
    var parts := Split(s, sep);
    SplitFirst(s, sep);
    if |parts| > 1 {
      var first := parts[0];
      SplitRest(s, sep, |first|);
      var rest := s[|first| + |sep|..];
      var tail := parts[1..];
      JoinSplit(rest, sep);
      assert parts == [first] + tail;
      assert Join(parts, sep) == first + sep + Join(tail, sep);
      assert s == first + sep + rest by {
        assert s[|first|..|first| + |sep|] == sep;
      }
    }
  }

  /** No piece of a split contains the separator. */
  lemma {:induction false} SplitPiecesClean(s: string, sep: string)
    requires |sep| > 0
    ensures forall k :: 0 <= k < |Split(s, sep)| ==> !Contains(Split(s, sep)[k], sep)
    decreases |s|
  {
    FindSpec(s, sep);
    match Find(s, sep)
    case None =>
      SplitNotFound(s, sep);
    case Some(i) =>
      SplitAtFound(s, sep, i);
      PrefixBeforeFirst(s, sep, i);
      SplitPiecesClean(s[i + |sep|..], sep);
  }

  /** A split has one piece exactly when the separator does not occur. */
  lemma SplitSingle(s: string, sep: string)
    requires |sep| > 0
    ensures |Split(s, sep)| == 1 <==> !Contains(s, sep)
    ensures !Contains(s, sep) ==> Split(s, sep) == [s]
  {
    FindSpec(s, sep);
    match Find(s, sep)
    case None =>
      SplitNotFound(s, sep);
    case Some(i) =>
      SplitAtFound(s, sep, i);
  }

  /**
   * If the first occurrence of `sep` in `e + sep` is the one appended, that
   * stays the first occurrence whatever follows.
   */
  lemma FindBeforeRest(e: string, sep: string, rest: string)
    requires |sep| > 0
    requires Find(e + sep, sep) == Some(|e|)
    ensures Find(e + sep + rest, sep) == Some(|e|)
  {
    FindSpec(e + sep, sep);
    var s := e + sep + rest;
    assert OccursAt(s, sep, |e|) by {
      assert s[|e|..|e| + |sep|] == sep;
    }
    forall j | 0 <= j < |e|
      ensures !OccursAt(s, sep, j)
    {
      assert !OccursAt(e + sep, sep, j);
      if j + |sep| <= |s| {
        assert s[j..j + |sep|] == (e + sep)[j..j + |sep|];
      }
    }
    FindIs(s, sep, |e|);
  }

  /**
   * For a separator without a border, a piece that does not contain it is
   * ended by the first separator appended to it.
   */
  lemma FindAfterClean(e: string, sep: string)
    requires |sep| > 0 && NoBorder(sep)
    requires !Contains(e, sep)
    ensures Find(e + sep, sep) == Some(|e|)
  {
    var s := e + sep;
    assert OccursAt(s, sep, |e|) by {
      assert s[|e|..|e| + |sep|] == sep;
    }
    forall j | 0 <= j < |e|
      ensures !OccursAt(s, sep, j)
    {
      NoEarlyOccurrence(e, sep, j);
    }
    FindIs(s, sep, |e|);
  }

  lemma NoEarlyOccurrence(e: string, sep: string, j: nat)
    requires |sep| > 0 && NoBorder(sep)
    requires !Contains(e, sep)
    requires j < |e|
    ensures !OccursAt(e + sep, sep, j)
  {
    var s := e + sep;
    if j + |sep| <= |e| {
      assert s[j..j + |sep|] == e[j..j + |sep|];
      assert !OccursAt(e, sep, j);
    } else {
      // an occurrence here would make a suffix of `sep` equal to its prefix
      var k := |e| - j;
      assert s[j..j + |sep|][k..] == sep[..|sep| - k];
      assert sep[k..] != sep[..|sep| - k];
    }
  }

  /** Splitting a clean piece followed by the separator peels that piece off. */
  lemma SplitCons(e: string, sep: string, rest: string)
    requires |sep| > 0 && NoBorder(sep)
    requires !Contains(e, sep)
    ensures Split(e + sep + rest, sep) == [e] + Split(rest, sep)
  {
    FindAfterClean(e, sep);
    FindBeforeRest(e, sep, rest);
    var s := e + sep + rest;
    SplitAtFound(s, sep, |e|);
    assert s[..|e|] == e;
    assert s[|e| + |sep|..] == rest;
  }

  /** Splitting the join of clean pieces gives the pieces back. */
  lemma {:induction false} SplitJoin(parts: seq<string>, sep: string)
    requires |sep| > 0 && NoBorder(sep)
    requires |parts| >= 1
    requires forall k :: 0 <= k < |parts| ==> !Contains(parts[k], sep)
    ensures Split(Join(parts, sep), sep) == parts
  {
    if |parts| == 1 {
      SplitSingle(parts[0], sep);
    } else {
      SplitJoin(parts[1..], sep);
      SplitCons(parts[0], sep, Join(parts[1..], sep));
    }
  }

  /** Joining `a + b` puts one separator between the two joins. */
  lemma {:induction false} JoinAppend(a: seq<string>, b: seq<string>, sep: string)
    requires |a| >= 1 && |b| >= 1
    ensures Join(a + b, sep) == Join(a, sep) + sep + Join(b, sep)
  {
    if |a| == 1 {
      assert (a + b)[1..] == b;
    } else {
      assert (a + b)[1..] == a[1..] + b;
      JoinAppend(a[1..], b, sep);
    }
  }

  /**
   * A concatenation contains a two-character separator only if one side
   * does, or the separator straddles the seam.
   */
  lemma ConcatClean(a: string, b: string, sep: string)
    requires |sep| == 2
    requires !Contains(a, sep) && !Contains(b, sep)
    requires !(|a| > 0 && |b| > 0 && a[|a| - 1] == sep[0] && b[0] == sep[1])
    ensures !Contains(a + b, sep)
  {
    var s := a + b;
    forall j | 0 <= j && j + 2 <= |s|
      ensures !OccursAt(s, sep, j)
    {
      if j + 2 <= |a| {
        assert s[j..j + 2] == a[j..j + 2];
        assert !OccursAt(a, sep, j);
      } else if j >= |a| {
        assert s[j..j + 2] == b[j - |a|..j - |a| + 2];
        assert !OccursAt(b, sep, j - |a|);
      } else {
        assert s[j..j + 2][0] == a[|a| - 1];
        assert s[j..j + 2][1] == b[0];
      }
    }
  }

  /** Occurrences in a suffix are occurrences in the whole text, shifted. */
  lemma OccursInSuffix(s: string, sep: string, k: nat, j: nat)
    requires k <= |s|
    ensures OccursAt(s[k..], sep, j) <==> OccursAt(s, sep, k + j)
  {
    if j + |sep| <= |s| - k {
      assert s[k..][j..j + |sep|] == s[k + j..k + j + |sep|];
    }
  }

  /**
   * When nothing starts before `k`, the leftmost occurrence in `s` is the
   * leftmost occurrence in `s[k..]`, shifted by `k`.
   */
  lemma FindDrop(s: string, sep: string, k: nat)
    requires |sep| > 0 && k <= |s|
    requires forall j :: 0 <= j < k ==> !OccursAt(s, sep, j)
    ensures Find(s, sep).None? <==> Find(s[k..], sep).None?
    ensures Find(s, sep).Some? ==> Find(s, sep).value == k + Find(s[k..], sep).value
  {
    FindSpec(s[k..], sep);
    match Find(s[k..], sep)
    case None =>
      forall j | 0 <= j
        ensures !OccursAt(s, sep, j)
      {
        if j >= k {
          OccursInSuffix(s, sep, k, j - k);
        }
      }
      FindNone(s, sep);
    case Some(i) =>
      OccursInSuffix(s, sep, k, i);
      forall j | 0 <= j < k + i
        ensures !OccursAt(s, sep, j)
      {
        if j >= k {
          OccursInSuffix(s, sep, k, j - k);
        }
      }
      FindIs(s, sep, k + i);
  }

  /** A text without the separator's first character cannot hold the start of an occurrence. */
  lemma PlainPrefix(x: string, y: string, sep: string)
    requires |sep| > 0 && sep[0] !in x
    ensures forall j :: 0 <= j < |x| ==> !OccursAt(x + y, sep, j)
  {
    forall j | 0 <= j < |x|
      ensures !OccursAt(x + y, sep, j)
    {
      if j + |sep| <= |x + y| {
        assert (x + y)[j..j + |sep|][0] == x[j];
      }
    }
  }

  /**
   * Splitting a text whose first `|x|` positions start no occurrence: `x` is
   * glued to the front of the first piece of the rest.
   */
  lemma SplitSkip(x: string, y: string, sep: string)
    requires |sep| > 0
    requires forall j :: 0 <= j < |x| ==> !OccursAt(x + y, sep, j)
    ensures |Split(x + y, sep)| == |Split(y, sep)|
    ensures Split(x + y, sep)[0] == x + Split(y, sep)[0]
    ensures Split(x + y, sep)[1..] == Split(y, sep)[1..]
  {
    FindDrop(x + y, sep, |x|);
    assert (x + y)[|x|..] == y;
    match Find(y, sep)
    case None =>
      SplitNotFound(y, sep);
      SplitNotFound(x + y, sep);
    case Some(i) =>
      SplitAtFound(y, sep, i);
      SplitAtFound(x + y, sep, |x| + i);
      assert (x + y)[..|x| + i] == x + y[..i];
      assert (x + y)[|x| + i + |sep|..] == y[i + |sep|..];
  }

  /** The same, for a piece free of the separator's first character. */
  lemma SplitPlainPrefix(x: string, y: string, sep: string)
    requires |sep| > 0 && sep[0] !in x
    ensures |Split(x + y, sep)| == |Split(y, sep)|
    ensures Split(x + y, sep)[0] == x + Split(y, sep)[0]
    ensures Split(x + y, sep)[1..] == Split(y, sep)[1..]
  {
    PlainPrefix(x, y, sep);
    SplitSkip(x, y, sep);
  }

  /** A text that is empty or starts with the separator has an empty first piece. */
  lemma LeadingSepEmpty(y: string, sep: string)
    requires |sep| > 0
    requires y == "" || (|sep| <= |y| && y[..|sep|] == sep)
    ensures Split(y, sep)[0] == ""
  {
    if y == "" {
      ShortClean(y, sep);
      SplitSingle(y, sep);
    } else {
      assert y[0..|sep|] == sep;
      assert Find(y, sep) == Some(0);
      SplitAtFound(y, sep, 0);
    }
  }

  /** A text that starts with the separator has an empty first piece, then the pieces of the rest. */
  lemma SplitLeadingSep(y: string, sep: string)
    requires |sep| > 0
    ensures Split(sep + y, sep) == [""] + Split(y, sep)
  {
    var t := sep + y;
    assert t[..|sep|] == sep;
    assert t[|sep|..] == y;
    assert t[0..|sep|] == sep;
    assert Find(t, sep) == Some(0);
    SplitAtFound(t, sep, 0);
    assert t[..0] == "";
  }

  /** A piece free of the separator's first character, then the separator, is split off. */
  lemma SplitPlainCons(x: string, y: string, sep: string)
    requires |sep| > 0 && sep[0] !in x
    ensures Split(x + sep + y, sep) == [x] + Split(y, sep)
  {
    var t := sep + y;
    var rest := Split(y, sep);
    SplitLeadingSep(y, sep);
    SplitPlainPrefix(x, t, sep);
    assert x + sep + y == x + t;
    var whole := Split(x + t, sep);
    assert whole[0] == x;
    assert whole[1..] == rest;
    assert whole == [x] + rest;
  }

  /** A text free of the separator's first character is its own one piece. */
  lemma SplitPlain(x: string, sep: string)
    requires |sep| > 0 && sep[0] !in x
    ensures Split(x, sep) == [x]
  {
    MissingCharClean(x, sep);
    SplitSingle(x, sep);
  }

  /** A text shorter than the separator cannot contain it. */
  lemma ShortClean(s: string, sep: string)
    requires |s| < |sep|
    ensures !Contains(s, sep)
  {
  }

  /** A text without the separator's first character cannot contain it. */
  lemma MissingCharClean(s: string, sep: string)
    requires |sep| > 0 && sep[0] !in s
    ensures !Contains(s, sep)
  {
    forall j | 0 <= j && j + |sep| <= |s|
      ensures !OccursAt(s, sep, j)
    {
      assert s[j..j + |sep|][0] == s[j];
    }
  }

  lemma CRLFNoBorder()
    ensures NoBorder(CRLF)
  {
    forall k | 0 < k < |CRLF|
      ensures CRLF[k..] != CRLF[..|CRLF| - k]
    {
      assert CRLF[k..][0] == '\n';
    }
  }

  lemma FieldSepNoBorder()
    ensures NoBorder(FieldSep)
  {
    forall k | 0 < k < |FieldSep|
      ensures FieldSep[k..] != FieldSep[..|FieldSep| - k]
    {
      assert FieldSep[k..][0] == ' ';
    }
  }
}
