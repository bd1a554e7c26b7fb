/** The behaviour of the Python `str` operations that the colour codec uses:
    `lstrip`, the whitespace trim `int()` applies, slicing, `index`, `split` and `replace(sub, "")`. */
module PyText {
  import opened Wrappers

  /** The whitespace `int()` ignores around a literal, in the Latin-1 range:
      tab through carriage return and space, and the two non-ASCII spaces NEL
      and no-break space, which `int()` first turns into a space. The ASCII
      separators U+001C..U+001F are `str.isspace` but not `int()` whitespace. */
  predicate IsSpace(c: char) {
    var k := c as int;
    k == 32 || 9 <= k <= 13 || k == 0x85 || k == 0xA0
  }

  /** `s.lstrip(chars)`: drops the longest prefix made of characters in `drop`. */
  function LStrip(s: string, drop: set<char>): (r: string)
    ensures |r| <= |s| && r == s[|s| - |r|..]
    ensures forall i :: 0 <= i < |s| - |r| ==> s[i] in drop
    ensures r == [] || r[0] !in drop
  {
    if |s| > 0 && s[0] in drop then LStrip(s[1..], drop) else s
  }

  /** Characters of `drop` put in front of a string are stripped with the
      rest of its leading run. */
  lemma {:induction false} LStripDropsPrefix(p: string, s: string, drop: set<char>)
    requires forall k :: 0 <= k < |p| ==> p[k] in drop
    ensures LStrip(p + s, drop) == LStrip(s, drop)
  {
    if p != [] {
      assert (p + s)[1..] == p[1..] + s;
      LStripDropsPrefix(p[1..], s, drop);
    } else {
      assert p + s == s;
    }
  }

  /** The same as LStrip, for the whitespace `int()` ignores (IsSpace). */
  function LStripSpace(s: string): (r: string)
    ensures |r| <= |s|
  {
    if |s| > 0 && IsSpace(s[0]) then LStripSpace(s[1..]) else s
  }

  /** Drops the longest suffix of whitespace. */
  function RStripSpace(s: string): (r: string)
    ensures |r| <= |s|
  {
    if |s| > 0 && IsSpace(s[|s| - 1]) then RStripSpace(s[..|s| - 1]) else s
  }

  /** What `int()` reads of its argument: the text with the whitespace it
      ignores removed at both ends. Unlike `str.strip()`, this keeps the
      separators U+001C..U+001F, which `int()` does not skip. */
  function IntTrim(s: string): string {
    RStripSpace(LStripSpace(s))
  }

  /** LStripSpace keeps a suffix of its argument, drops only whitespace and
      drops all of the leading whitespace. */
  lemma {:induction false} LStripSpaceFacts(s: string)
    ensures var r := LStripSpace(s);
            && r == s[|s| - |r|..]
            && (forall i :: 0 <= i < |s| - |r| ==> IsSpace(s[i]))
            && (r == [] || !IsSpace(r[0]))
  {
    if |s| > 0 && IsSpace(s[0]) {
      LStripSpaceFacts(s[1..]);
    }
  }

  /** RStripSpace keeps a prefix of its argument, drops only whitespace and
      drops all of the trailing whitespace. */
  lemma {:induction false} RStripSpaceFacts(s: string)
    ensures var r := RStripSpace(s);
            && r == s[..|r|]
            && (forall i :: |r| <= i < |s| ==> IsSpace(s[i]))
            && (r == [] || !IsSpace(r[|r| - 1]))
  {
    if |s| > 0 && IsSpace(s[|s| - 1]) {
      RStripSpaceFacts(s[..|s| - 1]);
    }
  }

  /** A string with no whitespace at either end is its own trim, and
      whitespace put in front of it is removed again. */
  lemma IntTrimPadded(pad: string, t: string)
    requires forall i :: 0 <= i < |pad| ==> IsSpace(pad[i])
    requires t != [] && !IsSpace(t[0]) && !IsSpace(t[|t| - 1])
    ensures IntTrim(pad + t) == t
  {
    assert (pad + t)[|pad|] == t[0];
    assert forall i :: 0 <= i < |pad| ==> (pad + t)[i] == pad[i];
    LStripSpaceFacts(pad + t);
    assert LStripSpace(pad + t) == t;
    RStripSpaceFacts(t);
  }

  /** A string with no whitespace at either end is its own trim. */
  lemma IntTrimClean(t: string)
    requires t != [] && !IsSpace(t[0]) && !IsSpace(t[|t| - 1])
    ensures IntTrim(t) == t
  {
    IntTrimPadded([], t);
    assert [] + t == t;
  }

  /** IntTrim keeps every character that is not whitespace. */
  lemma IntTrimKeepsNonSpace(s: string, i: nat)
    requires i < |s| && !IsSpace(s[i])
    ensures s[i] in IntTrim(s)
  {
    var l := LStripSpace(s);
    LStripSpaceFacts(s);
    var j := i - (|s| - |l|);
    assert 0 <= j < |l| && l[j] == s[i];
    var r := RStripSpace(l);
    RStripSpaceFacts(l);
    assert j < |r| && r[j] == s[i];
  }

  /** What strip keeps is a contiguous piece of its argument. */
  lemma IntTrimIsSlice(s: string) returns (i: nat)
    ensures i + |IntTrim(s)| <= |s| && IntTrim(s) == s[i..i + |IntTrim(s)|]
  {
    var l := LStripSpace(s);
    LStripSpaceFacts(s);
    RStripSpaceFacts(l);
    i := |s| - |l|;
    assert IntTrim(s) == l[..|IntTrim(s)|];
  }

  /** The Python slice `s[i:j]` for non-negative bounds: the characters of
      `s` from index `i` on, as many as `j - i` asks for and `s` still has;
      an empty range, or one starting at or past the end, is empty. */
  function Slice(s: string, i: nat, j: nat): (r: string)
    ensures j <= i || |s| <= i ==> r == []
    ensures i < j <= |s| ==> |r| == j - i
    ensures i < |s| <= j ==> |r| == |s| - i
    ensures forall k :: 0 <= k < |r| ==> r[k] == s[i + k]
  {
    if i < j && i < |s| then s[i..if j < |s| then j else |s|] else ""
  }

  /** Adjacent slices join into the slice that spans both. */
  lemma SliceConcat(s: string, i: nat, j: nat, k: nat)
    requires i <= j <= k
    ensures Slice(s, i, j) + Slice(s, j, k) == Slice(s, i, k)
  {
    var a, b, c := Slice(s, i, j), Slice(s, j, k), Slice(s, i, k);
    if |a| < j - i {
      assert b == [];
    }
    assert |a + b| == |c|;
    forall m | 0 <= m < |c|
      ensures (a + b)[m] == c[m]
    {
      if m >= |a| {
        assert (a + b)[m] == b[m - |a|] == s[j + m - |a|];
      }
    }
  }

  /** `s.index(c)`: the position of the first occurrence of `c`, or ValueError
      ("substring not found") when there is none. */
  function Index(s: string, c: char): (r: Result<nat>)
    ensures r.Ok? ==> r.value < |s| && s[r.value] == c &&
                      forall j :: 0 <= j < r.value ==> s[j] != c
    ensures r.Err? ==> r.error == SubstringNotFound([c]) &&
                       forall j :: 0 <= j < |s| ==> s[j] != c
  {
    if s == [] then Err(SubstringNotFound([c]))
    else if s[0] == c then Ok(0)
    else
      match Index(s[1..], c)
      case Ok(i) => Ok(i + 1)
      case Err(e) => Err(e)
  }

  /** Index finds the first occurrence. */
  lemma IndexOfFirst(s: string, c: char, i: nat)
    requires i < |s| && s[i] == c && forall j :: 0 <= j < i ==> s[j] != c
    ensures Index(s, c) == Ok(i)
  {
  }

  /** `s.count(c)`: the number of occurrences of `c` in `s`. */
  function Count(s: string, c: char): nat {
    if s == [] then 0 else (if s[0] == c then 1 else 0) + Count(s[1..], c)
  }

  lemma {:induction false} CountConcat(a: string, b: string, c: char)
    ensures Count(a + b, c) == Count(a, c) + Count(b, c)
  {
    if a != [] {
      assert (a + b)[1..] == a[1..] + b;
      CountConcat(a[1..], b, c);
    } else {
      assert a + b == b;
    }
  }

  lemma {:induction false} CountAbsent(s: string, c: char)
    requires forall k :: 0 <= k < |s| ==> s[k] != c
    ensures Count(s, c) == 0
  {
    if s != [] {
      CountAbsent(s[1..], c);
    }
  }

  /** Joins parts with one separator between neighbours: the inverse of Split. */
  function Join(parts: seq<string>, sep: char): string {
    if |parts| <= 1 then (if parts == [] then "" else parts[0])
    else parts[0] + [sep] + Join(parts[1..], sep)
  }

  /** `s.split(sep)` for a one-character separator: the pieces between
      separators, so one more piece than there are separators. */
  function Split(s: string, sep: char): (parts: seq<string>)
    ensures |parts| == Count(s, sep) + 1
    decreases |s|
  {
    match Index(s, sep)
    case Err(_) => CountAbsent(s, sep); [s]
    case Ok(i) =>
      var rest := Split(s[i + 1..], sep);
      assert s == s[..i] + ([sep] + s[i + 1..]);
      CountConcat(s[..i], [sep] + s[i + 1..], sep);
      CountConcat([sep], s[i + 1..], sep);
      CountAbsent(s[..i], sep);
      [s[..i]] + rest
  }

  /** No piece of a split holds the separator, and joining the pieces with
      it gives the string back. */
  lemma {:induction false} SplitJoin(s: string, sep: char)
    ensures forall p, k :: p in Split(s, sep) && 0 <= k < |p| ==> p[k] != sep
    ensures Join(Split(s, sep), sep) == s
    decreases |s|
  {
    match Index(s, sep)
    case Err(_) =>
    case Ok(i) =>
      SplitJoin(s[i + 1..], sep);
      assert s == s[..i] + [sep] + s[i + 1..];
  }

  /** Splitting a string whose first separator sits right after `head` yields
      `head` followed by the pieces of the remainder. */
  lemma SplitFirst(head: string, sep: char, tail: string)
    requires forall k :: 0 <= k < |head| ==> head[k] != sep
    ensures Split(head + [sep] + tail, sep) == [head] + Split(tail, sep)
  {
    var s := head + [sep] + tail;
    assert s[|head|] == sep;
    assert forall k :: 0 <= k < |head| ==> s[k] == head[k];
    assert s[..|head|] == head && s[|head| + 1..] == tail;
  }

  /** A string without the separator is split into itself alone. */
  lemma SplitNone(s: string, sep: char)
    requires forall k :: 0 <= k < |s| ==> s[k] != sep
    ensures Split(s, sep) == [s]
  {
  }

  /** `s.replace(sub, "")`: scans left to right and deletes every
      non-overlapping occurrence of a non-empty `sub`. */
  function Remove(s: string, sub: string): (r: string)
    requires sub != []
    ensures |r| <= |s|
    ensures (forall k :: 0 <= k < |s| ==> s[k] != sub[0]) ==> r == s
    ensures |sub| == 1 ==> forall k :: 0 <= k < |r| ==> r[k] != sub[0]
    decreases |s|
  {
    if |s| < |sub| then
      (if |sub| == 1 then assert s == []; s else s)
    else if s[..|sub|] == sub then Remove(s[|sub|..], sub)
    else [s[0]] + Remove(s[1..], sub)
  }

  /** A prefix that holds no character starting `sub` passes through Remove
      unchanged. */
  lemma {:induction false} RemoveKeepsPrefix(t: string, u: string, sub: string)
    requires sub != []
    requires forall k :: 0 <= k < |t| ==> t[k] != sub[0]
    ensures Remove(t + u, sub) == t + Remove(u, sub)
    decreases |t|
  {
    var s := t + u;
    if |s| < |sub| {
      RemoveShort(s, sub);
      RemoveShort(u, sub);
    } else if t == [] {
      assert s == u;
    } else {
      var rest := Remove(u, sub);
      assert Remove(s, sub) == [t[0]] + Remove(t[1..] + u, sub) by {
        assert s[1..] == t[1..] + u;
        RemoveStep(s, sub);
      }
      RemoveKeepsPrefix(t[1..], u, sub);
      ConsAppend(t, rest);
    }
  }

  lemma ConsAppend(t: string, v: string)
    requires t != []
    ensures [t[0]] + (t[1..] + v) == t + v
  {
  }

  /** Text shorter than `sub` holds no occurrence of it. */
  lemma RemoveShort(s: string, sub: string)
    requires sub != [] && |s| < |sub|
    ensures Remove(s, sub) == s
  {
  }

  /** A first character that cannot start `sub` is kept. */
  lemma RemoveStep(s: string, sub: string)
    requires sub != [] && |s| >= |sub| && s[0] != sub[0]
    ensures Remove(s, sub) == [s[0]] + Remove(s[1..], sub)
  {
    assert s[..|sub|][0] == s[0];
  }

  /** An occurrence of `sub` in front of text that cannot start another
      one is deleted, and the text is kept. */
  lemma RemoveLeading(sub: string, t: string)
    requires sub != [] && forall k :: 0 <= k < |t| ==> t[k] != sub[0]
    ensures Remove(sub + t, sub) == t
  {
    var s := sub + t;
    assert s[..|sub|] == sub && s[|sub|..] == t;
  }

  /** An occurrence of `sub` behind text that holds no character starting
      `sub` is deleted, and the text is kept. */
  lemma RemoveTrailing(t: string, sub: string)
    requires sub != [] && forall k :: 0 <= k < |t| ==> t[k] != sub[0]
    ensures Remove(t + sub, sub) == t
  {
    RemoveKeepsPrefix(t, sub, sub);
    assert sub[..|sub|] == sub && sub[|sub|..] == [];
    assert Remove(sub, sub) == Remove([], sub) == [];
    assert t + [] == t;
  }

  /** Deleting occurrences of `sub` leaves the number of every character
      that does not occur in `sub` as it was. */
  lemma {:induction false} RemoveKeepsCount(s: string, sub: string, c: char)
    requires sub != [] && c !in sub
    ensures Count(Remove(s, sub), c) == Count(s, c)
    decreases |s|
  {
    if |s| >= |sub| {
      if s[..|sub|] == sub {
        assert s == sub + s[|sub|..];
        CountConcat(sub, s[|sub|..], c);
        CountAbsent(sub, c);
        RemoveKeepsCount(s[|sub|..], sub, c);
      } else {
        RemoveKeepsCount(s[1..], sub, c);
        assert ([s[0]] + Remove(s[1..], sub))[1..] == Remove(s[1..], sub);
      }
    }
  }

  predicate IsLower(c: char) {
    'a' <= c <= 'z'
  }

  /** Python's `str.upper` on ASCII letters: the result is never a lower-case
      letter, a lower-case letter becomes the upper-case letter at the same
      place in the alphabet, and every other character is kept. */
  function UpperChar(c: char): (u: char)
    ensures !IsLower(u)
    ensures IsLower(c) ==> 'A' <= u <= 'Z' && u as int - 'A' as int == c as int - 'a' as int
    ensures !IsLower(c) ==> u == c
  {
    if 'a' <= c <= 'z' then (c as int - 32) as char else c
  }

  /** `s.upper()`: the same length, no lower-case letter left, every
      lower-case letter replaced by the same letter in upper case, and every
      other character kept in place. */
  function Upper(s: string): (r: string)
    ensures |r| == |s|
    ensures forall k :: 0 <= k < |r| ==> !IsLower(r[k])
    ensures forall k :: 0 <= k < |s| && IsLower(s[k]) ==>
              'A' <= r[k] <= 'Z' && r[k] as int - 'A' as int == s[k] as int - 'a' as int
    ensures forall k :: 0 <= k < |s| && !IsLower(s[k]) ==> r[k] == s[k]
  {
    seq(|s|, k requires 0 <= k < |s| => UpperChar(s[k]))
  }

  /** Upper-casing text that has no lower-case letter changes nothing. */
  lemma UpperFixesUpperCase(s: string)
    requires forall k :: 0 <= k < |s| ==> !IsLower(s[k])
    ensures Upper(s) == s
  {
  }
}
