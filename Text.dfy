/** ASCII models of the Python string operations the agents use:
    `str.lower`, `str.upper`, `str.strip`, `in` on strings, `str.split`,
    `str.join` and `str(int)`. Characters outside ASCII are left as they are
    by the case mappings and are never stripped. */
module Text {

  datatype Option<T> = None | Some(value: T)

  // ---------------------------------------------------------------- case

  function LowerChar(c: char): (d: char)
  {
    if 'A' <= c <= 'Z' then (c as int + 32) as char else c
  }

  function UpperChar(c: char): (d: char)
  {
    if 'a' <= c <= 'z' then (c as int - 32) as char else c
  }

  /** `s.lower()`: every ASCII capital is replaced by its small letter. */
  function Lower(s: string): (r: string)
    ensures |r| == |s| && IsLower(r)
    ensures forall k :: 0 <= k < |s| ==> r[k] == s[k] || 'A' <= s[k] <= 'Z'
  {
    seq(|s|, k requires 0 <= k < |s| => LowerChar(s[k]))
  }

  /** `s.upper()`: every ASCII small letter is replaced by its capital. */
  function Upper(s: string): (r: string)
    ensures |r| == |s|
    ensures forall k :: 0 <= k < |s| ==> !('a' <= r[k] <= 'z')
    ensures forall k :: 0 <= k < |s| ==> r[k] == s[k] || 'a' <= s[k] <= 'z'
  {
    seq(|s|, k requires 0 <= k < |s| => UpperChar(s[k]))
  }

  predicate IsLower(s: string)
  {
    forall k :: 0 <= k < |s| ==> LowerChar(s[k]) == s[k]
  }

  /** Lowering forgets case: upper-casing first changes nothing. */
  lemma {:induction false} LowerOfUpper(s: string)
    ensures Lower(Upper(s)) == Lower(s)
  {
    assert forall k :: 0 <= k < |s| ==> LowerChar(UpperChar(s[k])) == LowerChar(s[k]);
  }

  lemma {:induction false} LowerConcat(a: string, b: string)
    ensures Lower(a + b) == Lower(a) + Lower(b)
  {
    assert forall k :: 0 <= k < |a + b| ==> Lower(a + b)[k] == (Lower(a) + Lower(b))[k];
  }

  lemma {:induction false} LowerSlice(s: string, i: nat, j: nat)
    requires i <= j <= |s|
    ensures Lower(s[i..j]) == Lower(s)[i..j]
  {
    assert forall k :: 0 <= k < j - i ==> Lower(s[i..j])[k] == Lower(s)[i..j][k];
  }

  lemma {:induction false} IsLowerSlice(s: string, i: nat, j: nat)
    requires i <= j <= |s| && IsLower(s)
    ensures IsLower(s[i..j])
  {
    assert forall k :: 0 <= k < j - i ==> s[i..j][k] == s[i + k];
  }

  /** The result of `lower()` is already lower case. */
  lemma {:induction false} LowerIsLower(s: string)
    ensures IsLower(Lower(s))
  {
    assert forall k :: 0 <= k < |s| ==> LowerChar(LowerChar(s[k])) == LowerChar(s[k]);
  }

  /** A string without capitals is its own lower-case form. */
  lemma {:induction false} LowerOfLower(s: string)
    requires IsLower(s)
    ensures Lower(s) == s
  {
  }

  // ---------------------------------------------------------------- strip

  /** The characters Python's `str.isspace` accepts, restricted to ASCII. */
  const Whitespace: set<char> :=
    {'\t', '\n', '\U{0B}', '\U{0C}', '\r', '\U{1C}', '\U{1D}', '\U{1E}', '\U{1F}', ' '}

  predicate AllIn(s: string, cs: set<char>)
  {
    forall k :: 0 <= k < |s| ==> s[k] in cs
  }

  /** The number of leading characters of `s` that are in `cs`. */
  function LeadCount(s: string, cs: set<char>): (n: nat)
    ensures n <= |s|
    ensures forall k :: 0 <= k < n ==> s[k] in cs
    ensures n < |s| ==> s[n] !in cs
    decreases |s|
  {
    if s != [] && s[0] in cs then
      var n := LeadCount(s[1..], cs);
      assert forall k :: 1 <= k < n + 1 ==> s[k] == s[1..][k - 1];
      n + 1
    else 0
  }

  /** The index where the trailing run of characters in `cs` starts. */
  function TrailStart(s: string, cs: set<char>): (n: nat)
    ensures n <= |s|
    ensures forall k :: n <= k < |s| ==> s[k] in cs
    ensures 0 < n ==> s[n - 1] !in cs
    decreases |s|
  {
    if s != [] && s[|s| - 1] in cs then TrailStart(s[..|s| - 1], cs) else |s|
  }

  /** The three properties of `LeadCount` determine it. */
  lemma {:induction false} LeadCountIs(s: string, cs: set<char>, n: nat)
    requires n <= |s|
    requires forall k :: 0 <= k < n ==> s[k] in cs
    requires n < |s| ==> s[n] !in cs
    ensures LeadCount(s, cs) == n
  {
  }

  /** The three properties of `TrailStart` determine it. */
  lemma {:induction false} TrailStartIs(s: string, cs: set<char>, n: nat)
    requires n <= |s|
    requires forall k :: n <= k < |s| ==> s[k] in cs
    requires 0 < n ==> s[n - 1] !in cs
    ensures TrailStart(s, cs) == n
  {
  }

  lemma {:induction false} LeadCountPrefix(w: string, t: string, cs: set<char>)
    requires AllIn(w, cs)
    ensures LeadCount(w + t, cs) == |w| + LeadCount(t, cs)
  {
    var n := LeadCount(t, cs);
    assert forall k :: |w| <= k < |w| + |t| ==> (w + t)[k] == t[k - |w|];
    LeadCountIs(w + t, cs, |w| + n);
  }

  lemma {:induction false} LeadCountAppend(t: string, w: string, cs: set<char>)
    requires LeadCount(t, cs) < |t|
    ensures LeadCount(t + w, cs) == LeadCount(t, cs)
  {
    var n := LeadCount(t, cs);
    assert forall k :: 0 <= k < |t| ==> (t + w)[k] == t[k];
    LeadCountIs(t + w, cs, n);
  }

  lemma {:induction false} TrailStartAppend(t: string, w: string, cs: set<char>)
    requires AllIn(w, cs)
    ensures TrailStart(t + w, cs) == TrailStart(t, cs)
  {
    var n := TrailStart(t, cs);
    assert forall k :: |t| <= k < |t| + |w| ==> (t + w)[k] == w[k - |t|];
    assert forall k :: 0 <= k < |t| ==> (t + w)[k] == t[k];
    TrailStartIs(t + w, cs, n);
  }

  lemma {:induction false} TrailStartPrefix(w: string, t: string, cs: set<char>)
    requires 0 < TrailStart(t, cs)
    ensures TrailStart(w + t, cs) == |w| + TrailStart(t, cs)
  {
    var n := TrailStart(t, cs);
    assert forall k :: |w| <= k < |w| + |t| ==> (w + t)[k] == t[k - |w|];
    TrailStartIs(w + t, cs, |w| + n);
  }

  /** `s.strip(chars)` with the characters of `chars` as the set `cs`: what
      lies between the leading and the trailing run of those characters. */
  function StripChars(s: string, cs: set<char>): (r: string)
    ensures IsStripAt(r, s, cs, LeadCount(s, cs))
  {
    var i, j := LeadCount(s, cs), TrailStart(s, cs);
    if i <= j then
      assert IsStripAt(s[i..j], s, cs, i);
      s[i..j]
    else
      assert s[..i] == s && s[i..] == [];
      []
  }

  /** `s.strip()`. */
  function Strip(s: string): (r: string)
    ensures IsStripAt(r, s, Whitespace, LeadCount(s, Whitespace))
  {
    StripChars(s, Whitespace)
  }

  /** `r` is the slice of `s` at `i` with only characters of `cs` before
      and after it, and it neither starts nor ends with one of them. */
  predicate IsStripAt(r: string, s: string, cs: set<char>, i: nat)
  {
    && i + |r| <= |s| && r == s[i..i + |r|]
    && AllIn(s[..i], cs) && AllIn(s[i + |r|..], cs)
    && (r == [] || (r[0] !in cs && r[|r| - 1] !in cs))
  }

  /** `strip` leaves nothing exactly when every character is one it strips. */
  lemma {:induction false} StripCharsEmpty(s: string, cs: set<char>)
    ensures StripChars(s, cs) == [] <==> AllIn(s, cs)
  {
    var i, j := LeadCount(s, cs), TrailStart(s, cs);
    if i < |s| {
      LeadBeforeTrail(s, cs);
      StripCharsAt(s, cs, i, j);
    }
  }

  lemma {:induction false} LeadCountPadded(lead: string, s: string, trail: string, cs: set<char>)
    requires AllIn(lead, cs) && LeadCount(s, cs) < |s|
    ensures LeadCount(lead + s + trail, cs) == |lead| + LeadCount(s, cs)
  {
    assert lead + s + trail == lead + (s + trail);
    LeadCountPrefix(lead, s + trail, cs);
    LeadCountAppend(s, trail, cs);
  }

  lemma {:induction false} TrailStartPadded(lead: string, s: string, trail: string, cs: set<char>)
    requires AllIn(trail, cs) && 0 < TrailStart(s, cs)
    ensures TrailStart(lead + s + trail, cs) == |lead| + TrailStart(s, cs)
  {
    TrailStartAppend(lead + s, trail, cs);
    TrailStartPrefix(lead, s, cs);
  }

  lemma {:induction false} LeadBeforeTrail(s: string, cs: set<char>)
    requires LeadCount(s, cs) < |s|
    ensures LeadCount(s, cs) < TrailStart(s, cs)
  {
    assert s[LeadCount(s, cs)] !in cs;
  }

  lemma {:induction false} StripCharsAt(s: string, cs: set<char>, i: nat, j: nat)
    requires LeadCount(s, cs) == i <= j == TrailStart(s, cs)
    ensures StripChars(s, cs) == s[i..j]
  {
  }

  lemma {:induction false} StripCharsPaddedMixed(lead: string, s: string, trail: string, cs: set<char>)
    requires AllIn(lead, cs) && AllIn(trail, cs)
    requires LeadCount(s, cs) < |s|
    ensures StripChars(lead + s + trail, cs) == StripChars(s, cs)
  {
    var i, j := LeadCount(s, cs), TrailStart(s, cs);
    LeadBeforeTrail(s, cs);
    StripCharsAt(s, cs, i, j);
    LeadCountPadded(lead, s, trail, cs);
    TrailStartPadded(lead, s, trail, cs);
    StripCharsAt(lead + s + trail, cs, |lead| + i, |lead| + j);
    MiddleSlice(lead, s, trail, i, j);
  }

  lemma {:induction false} MiddleSlice(a: string, b: string, c: string, i: nat, j: nat)
    requires i <= j <= |b|
    ensures (a + b + c)[|a| + i..|a| + j] == b[i..j]
  {
    var x, y := (a + b + c)[|a| + i..|a| + j], b[i..j];
    assert forall k :: 0 <= k < j - i ==> x[k] == y[k];
  }

  lemma {:induction false} StripCharsPaddedAllIn(lead: string, s: string, trail: string, cs: set<char>)
    requires AllIn(lead, cs) && AllIn(trail, cs)
    requires LeadCount(s, cs) == |s|
    ensures StripChars(lead + s + trail, cs) == StripChars(s, cs)
  {
    var x := lead + s + trail;
    assert StripChars(s, cs) == [];
    assert x == lead + (s + trail);
    LeadCountPrefix(lead, s + trail, cs);
    LeadCountPrefix(s, trail, cs);
    assert LeadCount(x, cs) == |x|;
    TrailStartAppend(lead + s, trail, cs);
    assert AllIn(lead + s, cs) by {
      assert forall k :: |lead| <= k < |lead| + |s| ==> (lead + s)[k] == s[k - |lead|];
    }
    TrailStartIs(lead + s, cs, 0);
    assert TrailStart(x, cs) == 0;
  }

  /** `strip` ignores any padding made of characters it strips. */
  lemma {:induction false} StripCharsPadded(lead: string, s: string, trail: string, cs: set<char>)
    requires AllIn(lead, cs) && AllIn(trail, cs)
    ensures StripChars(lead + s + trail, cs) == StripChars(s, cs)
  {
    if LeadCount(s, cs) < |s| {
      StripCharsPaddedMixed(lead, s, trail, cs);
    } else {
      StripCharsPaddedAllIn(lead, s, trail, cs);
    }
  }

  /** A string that neither starts nor ends with a character of `cs` is
      left as it is. */
  lemma {:induction false} StripCharsUnpadded(s: string, cs: set<char>)
    requires s != [] && s[0] !in cs && s[|s| - 1] !in cs
    ensures StripChars(s, cs) == s
  {
    LeadCountIs(s, cs, 0);
    TrailStartIs(s, cs, |s|);
  }

  /** Stripping characters that lower-casing neither produces from nor turns
      into other characters commutes with lower-casing. */
  lemma {:induction false} StripCharsLower(s: string, cs: set<char>)
    requires forall c :: LowerChar(c) in cs <==> c in cs
    ensures StripChars(Lower(s), cs) == Lower(StripChars(s, cs))
  {
    var l := Lower(s);
    var i, j := LeadCount(s, cs), TrailStart(s, cs);
    LeadCountIs(l, cs, i);
    TrailStartIs(l, cs, j);
    if i <= j {
      LowerSlice(s, i, j);
    }
  }

  /** What `strip` keeps is lower-case when the string is, and free of a
      pattern the string is free of. */
  lemma {:induction false} StripCharsKeeps(s: string, cs: set<char>, pat: string)
    ensures exists i: nat :: IsStripAt(StripChars(s, cs), s, cs, i)
    ensures IsLower(s) ==> IsLower(StripChars(s, cs))
    ensures !Contains(s, pat) ==> !Contains(StripChars(s, cs), pat)
  {
    var t := StripChars(s, cs);
    var i := LeadCount(s, cs);
    if IsLower(s) {
      IsLowerSlice(s, i, i + |t|);
    }
    if !Contains(s, pat) {
      NotContainsSlice(s, pat, i, i + |t|);
    }
  }

  // ---------------------------------------------------------------- normalise

  /** `prompt.lower().strip()`, the assistants' normalisation. */
  function Normalize(s: string): (r: string)
    ensures IsStripAt(r, Lower(s), Whitespace, LeadCount(Lower(s), Whitespace))
    ensures IsLower(r)
  {
    Strip(Lower(s))
  }

  /** A prompt that neither starts nor ends with whitespace is only
      lower-cased. */
  lemma {:induction false} NormalizeUnpadded(s: string)
    requires s != [] && LowerChar(s[0]) !in Whitespace && LowerChar(s[|s| - 1]) !in Whitespace
    ensures Normalize(s) == Lower(s)
  {
    var l := Lower(s);
    LeadCountIs(l, Whitespace, 0);
    TrailStartIs(l, Whitespace, |l|);
  }

  lemma {:induction false} LowerOfWhitespace(w: string)
    requires AllIn(w, Whitespace)
    ensures Lower(w) == w
  {
    assert forall k :: 0 <= k < |w| ==> Lower(w)[k] == w[k];
  }

  /** Normalisation makes case and surrounding whitespace irrelevant. */
  lemma {:induction false} NormalizeIgnoresCaseAndPadding(lead: string, s: string, trail: string)
    requires AllIn(lead, Whitespace) && AllIn(trail, Whitespace)
    ensures Normalize(lead + Upper(s) + trail) == Normalize(s)
  {
    LowerConcat(lead + Upper(s), trail);
    LowerConcat(lead, Upper(s));
    LowerOfUpper(s);
    LowerOfWhitespace(lead);
    LowerOfWhitespace(trail);
    StripCharsPadded(lead, Lower(s), trail, Whitespace);
  }

  // ---------------------------------------------------------------- search

  /** `pat` occurs in `s` starting at index `i`. */
  predicate OccursAt(s: string, pat: string, i: nat)
  {
    i + |pat| <= |s| && s[i..i + |pat|] == pat
  }

  /** The first index at or after `from` where `pat` occurs in `s`
      (`s.find(pat, from)`). */
  function IndexFrom(s: string, pat: string, from: nat): (r: Option<nat>)
    ensures r.Some? ==> from <= r.value && OccursAt(s, pat, r.value)
    ensures r.Some? ==> forall j: nat :: from <= j < r.value ==> !OccursAt(s, pat, j)
    ensures r.None? ==> forall j: nat :: from <= j ==> !OccursAt(s, pat, j)
    decreases |s| - from
  {
    if from + |pat| > |s| then None
    else if s[from..from + |pat|] == pat then Some(from)
    else IndexFrom(s, pat, from + 1)
  }

  /** The index of the first occurrence of `pat` in `s` (`s.find(pat)`). */
  function IndexOf(s: string, pat: string): (r: Option<nat>)
  {
    IndexFrom(s, pat, 0)
  }

  /** `pat in s`. */
  predicate Contains(s: string, pat: string)
  {
    IndexOf(s, pat).Some?
  }

  lemma {:induction false} ContainsIff(s: string, pat: string)
    ensures Contains(s, pat) <==> exists i: nat :: OccursAt(s, pat, i)
  {
  }

  /** Lower-casing keeps every occurrence of a lower-case pattern. */
  lemma {:induction false} LowerKeepsOccurrence(s: string, pat: string, i: nat)
    requires OccursAt(s, pat, i) && Lower(pat) == pat
    ensures OccursAt(Lower(s), pat, i)
  {
    LowerSlice(s, i, i + |pat|);
  }

  /** A string that differs from `pat` in its first or second character,
      and that has `pat`'s first character nowhere after its own first
      character, does not contain `pat`. */
  lemma {:induction false} NotContainsByFirstChar(c: char, t: string, pat: string)
    requires |pat| >= 2 && pat[0] !in t
    requires c != pat[0] || t == [] || t[0] != pat[1]
    ensures !Contains([c] + t, pat)
  {
    var s := [c] + t;
    assert !OccursAt(s, pat, 0) by {
      if |pat| <= |s| {
        assert s[0..|pat|][0] == c;
        if t != [] {
          assert s[0..|pat|][1] == t[0];
        }
      }
    }
  }

  /** An occurrence inside a slice is an occurrence in the whole string. */
  lemma {:induction false} OccursInSlice(s: string, pat: string, i: nat, j: nat, k: nat)
    requires i <= j <= |s|
    requires OccursAt(s[i..j], pat, k)
    ensures OccursAt(s, pat, i + k) && i + k + |pat| <= j
  {
    var inner, outer := s[i..j][k..k + |pat|], s[i + k..i + k + |pat|];
    assert forall m :: 0 <= m < |pat| ==> inner[m] == outer[m];
  }

  /** A slice of a string holds no occurrence the whole string lacks. */
  lemma {:induction false} NotContainsSlice(s: string, pat: string, i: nat, j: nat)
    requires i <= j <= |s|
    requires !Contains(s, pat)
    ensures !Contains(s[i..j], pat)
  {
    if Contains(s[i..j], pat) {
      OccursInSlice(s, pat, i, j, IndexOf(s[i..j], pat).value);
    }
  }

  /** No occurrence starts in `s[a..b]` when `pat`'s first character is
      not there. */
  lemma {:induction false} NoStartIn(s: string, pat: string, a: nat, b: nat)
    requires pat != [] && a <= b <= |s| && pat[0] !in s[a..b]
    ensures forall k: nat :: a <= k < b ==> !OccursAt(s, pat, k)
  {
    forall k: nat | a <= k < b
      ensures !OccursAt(s, pat, k)
    {
      assert s[a..b][k - a] == s[k];
      if k + |pat| <= |s| {
        assert s[k..k + |pat|][0] == s[k];
      }
    }
  }

  /** An occurrence with none before it is the first. */
  lemma {:induction false} FirstOccurrence(s: string, pat: string, i: nat)
    requires OccursAt(s, pat, i)
    requires forall k: nat :: k < i ==> !OccursAt(s, pat, k)
    ensures IndexOf(s, pat) == Some(i)
  {
  }

  /** The search from `from` finds nothing when the rest of `s` holds no
      occurrence. */
  lemma {:induction false} IndexFromNone(s: string, pat: string, from: nat)
    requires from <= |s| && !Contains(s[from..], pat)
    ensures IndexFrom(s, pat, from) == None
  {
    match IndexFrom(s, pat, from)
    case None =>
    case Some(k) =>
      var rest := s[from..];
      assert rest[k - from..k - from + |pat|] == s[k..k + |pat|];
      assert OccursAt(rest, pat, k - from);
  }

  /** A character other than the pattern's last one, appended to a string
      without the pattern, creates no occurrence. */
  lemma {:induction false} NotContainsAppendChar(a: string, c: char, pat: string)
    requires pat != [] && !Contains(a, pat) && c != pat[|pat| - 1]
    ensures !Contains(a + [c], pat)
  {
    var s := a + [c];
    forall k: nat | k + |pat| <= |s|
      ensures !OccursAt(s, pat, k)
    {
      if k + |pat| <= |a| {
        assert s[k..k + |pat|] == a[k..k + |pat|];
        assert !OccursAt(a, pat, k);
      } else {
        assert s[k..k + |pat|][|pat| - 1] == c;
      }
    }
  }

  // ---------------------------------------------------------------- split

  /** The pieces of `s[from..]` between the occurrences of `sep`, found left
      to right without overlap. */
  function SplitFrom(s: string, sep: string, from: nat): (parts: seq<string>)
    requires sep != [] && from <= |s|
    ensures |parts| >= 1
    ensures |parts| >= 2 <==> IndexFrom(s, sep, from).Some?
    ensures forall k :: 0 <= k < |parts| ==> !Contains(parts[k], sep)
    decreases |s| - from
  {
    match IndexFrom(s, sep, from)
    case None =>
      assert !Contains(s[from..], sep) by {
        if Contains(s[from..], sep) {
          assert s[from..] == s[from..|s|];
          OccursInSlice(s, sep, from, |s|, IndexOf(s[from..], sep).value);
        }
      }
      [s[from..]]
    case Some(i) =>
      assert !Contains(s[from..i], sep) by {
        if Contains(s[from..i], sep) {
          OccursInSlice(s, sep, from, i, IndexOf(s[from..i], sep).value);
        }
      }
      [s[from..i]] + SplitFrom(s, sep, i + |sep|)
  }

  /** `s.split(sep)`. Python rejects an empty separator. */
  function Split(s: string, sep: string): (parts: seq<string>)
    requires sep != []
    ensures |parts| >= 1
    ensures |parts| >= 2 <==> Contains(s, sep)
    ensures forall k :: 0 <= k < |parts| ==> !Contains(parts[k], sep)
  {
    SplitFrom(s, sep, 0)
  }

  /** Where the piece of the split that starts at `from` ends: at the next
      occurrence of `sep`, or at the end of `s`. */
  function PieceEnd(s: string, sep: string, from: nat): (e: nat)
    requires from <= |s|
    ensures from <= e <= |s|
    ensures OccursAt(s, sep, e) || e == |s|
    ensures forall k: nat :: from <= k < e ==> !OccursAt(s, sep, k)
  {
    match IndexFrom(s, sep, from)
    case None => |s|
    case Some(k) => k
  }

  /** The first piece of a split from `from` ends at `PieceEnd`, and when
      a separator follows, the next pieces are the split from after it. */
  lemma {:induction false} SplitFromHead(s: string, sep: string, from: nat)
    requires sep != [] && from <= |s|
    ensures SplitFrom(s, sep, from)[0] == s[from..PieceEnd(s, sep, from)]
    ensures IndexFrom(s, sep, from).Some? ==>
      SplitFrom(s, sep, from)[1..] == SplitFrom(s, sep, IndexFrom(s, sep, from).value + |sep|)
  {
  }

  /** The first two pieces of a split on a separator that occurs: the text
      before its first occurrence, and the text from there up to the next
      occurrence or the end. */
  lemma {:induction false} SplitFirstPieces(s: string, sep: string)
    requires sep != [] && Contains(s, sep)
    ensures var i := IndexOf(s, sep).value; var j := i + |sep|;
      && j <= |s| && Split(s, sep)[0] == s[..i]
      && Split(s, sep)[1] == s[j..PieceEnd(s, sep, j)]
  {
    var i := IndexOf(s, sep).value;
    var j := i + |sep|;
    var parts := SplitFrom(s, sep, 0);
    SplitFromHead(s, sep, 0);
    SplitFromHead(s, sep, j);
    assert parts[1] == parts[1..][0];
  }

  /** `sep.join(parts)`. */
  function Join(sep: string, parts: seq<string>): (r: string)
    ensures parts == [] ==> r == ""
    ensures parts != [] ==> |parts[0]| <= |r| && r[..|parts[0]|] == parts[0]
    ensures |parts| >= 2 ==> OccursAt(r, sep, |parts[0]|)
    decreases |parts|
  {
    if parts == [] then ""
    else if |parts| == 1 then parts[0]
    else parts[0] + sep + Join(sep, parts[1..])
  }

  lemma {:induction false} JoinSplitFrom(s: string, sep: string, from: nat)
    requires sep != [] && from <= |s|
    ensures Join(sep, SplitFrom(s, sep, from)) == s[from..]
    decreases |s| - from
  {
    match IndexFrom(s, sep, from)
    case None =>
    case Some(i) =>
      var next := i + |sep|;
      JoinSplitFrom(s, sep, next);
      SplitFromHead(s, sep, from);
      JoinCons(sep, SplitFrom(s, sep, from));
      ThreeSlices(s, from, i, next);
  }

  lemma {:induction false} JoinCons(sep: string, parts: seq<string>)
    requires |parts| >= 2
    ensures Join(sep, parts) == parts[0] + sep + Join(sep, parts[1..])
  {
  }

  lemma {:induction false} SliceToEnd(s: string, a: nat)
    requires a <= |s|
    ensures s[a..|s|] == s[a..]
  {
  }

  lemma {:induction false} ThreeSlices(s: string, a: nat, b: nat, c: nat)
    requires a <= b <= c <= |s|
    ensures s[a..] == s[a..b] + s[b..c] + s[c..]
  {
    assert s[a..] == s[a..b] + s[b..];
    assert s[b..] == s[b..c] + s[c..];
  }

  /** Joining the pieces with the separator gives the string back. */
  lemma {:induction false} JoinSplit(s: string, sep: string)
    requires sep != []
    ensures Join(sep, Split(s, sep)) == s
  {
    JoinSplitFrom(s, sep, 0);
  }

  // ---------------------------------------------------------------- integers

  function DigitChar(d: nat): (c: char)
    requires d < 10
  {
    ('0' as int + d) as char
  }

  function DigitValue(c: char): (d: int)
  {
    c as int - '0' as int
  }

  /** `str(n)` for a natural number: decimal digits, most significant first. */
  function NatToString(n: nat): (r: string)
    ensures r != []
    ensures forall k :: 0 <= k < |r| ==> '0' <= r[k] <= '9'
    decreases n
  {
    if n < 10 then [DigitChar(n)] else NatToString(n / 10) + [DigitChar(n % 10)]
  }

  /** `str(n)`: a minus sign before the digits of a negative number. */
  function IntToString(n: int): (r: string)
    ensures r != [] && ParseInt(r) == n
  {
    if n < 0 then
      ParseNatToString(-n);
      assert ("-" + NatToString(-n))[1..] == NatToString(-n);
      "-" + NatToString(-n)
    else
      ParseNatToString(n);
      NatToString(n)
  }

  /** `int(s)` for a string of decimal digits. */
  function ParseNat(s: string): (n: int)
    decreases |s|
  {
    if s == [] then 0 else 10 * ParseNat(s[..|s| - 1]) + DigitValue(s[|s| - 1])
  }

  function ParseInt(s: string): (n: int)
  {
    if s != [] && s[0] == '-' then -ParseNat(s[1..]) else ParseNat(s)
  }

  lemma {:induction false} ParseNatToString(n: nat)
    ensures ParseNat(NatToString(n)) == n
    decreases n
  {
    if n >= 10 {
      ParseNatToString(n / 10);
      var r := NatToString(n);
      assert r[..|r| - 1] == NatToString(n / 10);
    }
  }

  /** The rendering of an integer reads back as the same integer. */
  lemma {:induction false} ParseIntToString(n: int)
    ensures ParseInt(IntToString(n)) == n
  {
    if n < 0 {
      ParseNatToString(-n);
      assert IntToString(n)[1..] == NatToString(-n);
    } else {
      ParseNatToString(n);
    }
  }
}
