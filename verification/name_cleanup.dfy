/** The label the base card shows for a related entity: the friendly name (or the
    object id) with a hexadecimal device-id prefix and a trailing parenthesised
    group removed, then trimmed. The two regular expressions the base card applies,
    `^[0-9a-f]{12,}\s+` (case-insensitive) and `\s*\(.*?\)\s*$`, are given
    here both as a declarative description of what they match (the ghost
    predicates) and as a direct scan, and the two are proved to agree. */
module NameCleanup {
  import opened Wrappers
  import opened Js
  import opened Hass

  /** `[0-9a-f]` under the `i` flag. */
  predicate IsHexDigit(c: char) {
    ('0' <= c <= '9') || ('a' <= c <= 'f') || ('A' <= c <= 'F')
  }

  predicate AllHex(s: string) {
    forall i :: 0 <= i < |s| ==> IsHexDigit(s[i])
  }

  predicate NoLineTerminator(s: string) {
    forall i :: 0 <= i < |s| ==> !IsLineTerminator(s[i])
  }

  /** Length of the leading run of hex digits. */
  function HexRun(s: string): (n: nat)
    ensures n <= |s| && AllHex(s[..n])
    ensures n < |s| ==> !IsHexDigit(s[n])
  {
    if |s| == 0 || !IsHexDigit(s[0]) then 0
    else
      var n := HexRun(s[1..]);
      assert s[..n + 1] == [s[0]] + s[1..][..n];
      n + 1
  }

  /** Length of the leading run of white space. */
  function LeadingSpace(s: string): (n: nat)
    ensures n <= |s| && AllWhitespace(s[..n])
    ensures n < |s| ==> !IsWhitespace(s[n])
  {
    if |s| == 0 || !IsWhitespace(s[0]) then 0
    else
      var n := LeadingSpace(s[1..]);
      assert s[..n + 1] == [s[0]] + s[1..][..n];
      n + 1
  }

  /** Length of the trailing run of white space. */
  function TrailingSpace(s: string): (n: nat)
    ensures n <= |s| && AllWhitespace(s[|s| - n..])
    ensures n < |s| ==> !IsWhitespace(s[|s| - n - 1])
  {
    if |s| == 0 || !IsWhitespace(s[|s| - 1]) then 0
    else
      var n := TrailingSpace(s[..|s| - 1]);
      TrailingSpaceGrows(s, n);
      n + 1
  }

  /** A white space character after a trailing run of white space extends it. */
  lemma TrailingSpaceGrows(s: string, n: nat)
    requires 0 < |s| && n < |s| && IsWhitespace(s[|s| - 1])
    requires AllWhitespace(s[..|s| - 1][|s| - 1 - n..])
    ensures AllWhitespace(s[|s| - n - 1..])
  {
    var t := s[|s| - n - 1..];
    forall m | 0 <= m < |t|
      ensures IsWhitespace(t[m])
    {
      if m < n {
        assert t[m] == s[..|s| - 1][|s| - 1 - n..][m];
      }
    }
  }

  // ---------------------------------------------------------------------------
  // Hex prefix: `replace(/^[0-9a-f]{12,}\s+/i, '')`

  /** `s[..n]` is a match of `^[0-9a-f]{12,}\s+`. */
  ghost predicate HexPrefixMatch(s: string, n: int) {
    exists k :: HexSpaceSplit(s, k, n)
  }

  /** `s[..k]` are the 12 or more hex digits of the match `s[..n]`, and
      `s[k..n]` its white space. */
  predicate HexSpaceSplit(s: string, k: int, n: int) {
    12 <= k < n <= |s| && AllHex(s[..k]) && AllWhitespace(s[k..n])
  }

  function StripHexPrefix(s: string): (r: string)
    // no match: the name is left alone
    ensures (forall n :: !HexPrefixMatch(s, n)) ==> r == s
    // a match: exactly the longest (greedy) match is cut off the front
    ensures (exists n :: HexPrefixMatch(s, n)) ==>
              && |r| < |s|
              && r == s[|s| - |r|..]
              && HexPrefixMatch(s, |s| - |r|)
              && forall n :: HexPrefixMatch(s, n) ==> n <= |s| - |r|
  {
    var h := HexRun(s);
    if h >= 12 && h < |s| && IsWhitespace(s[h]) then
      var n := h + LeadingSpace(s[h..]);
      LongestHexMatch(s, h);
      s[n..]
    else
      NoHexMatch(s, h);
      s
  }

  /** `s[..h]` is the whole leading run of hex digits. */
  predicate IsHexRun(s: string, h: int) {
    0 <= h <= |s| && AllHex(s[..h]) && (h < |s| ==> !IsHexDigit(s[h]))
  }

  /** After a run of 12 or more hex digits and white space, the greedy match
      ends where that white space ends. */
  lemma LongestHexMatch(s: string, h: nat)
    requires IsHexRun(s, h) && 12 <= h < |s| && IsWhitespace(s[h])
    ensures var n := h + LeadingSpace(s[h..]);
            HexPrefixMatch(s, n) && forall m :: HexPrefixMatch(s, m) ==> m <= n
  {
    SpaceRunFrom(s, h);
    assert HexSpaceSplit(s, h, h + LeadingSpace(s[h..]));
    forall m | HexPrefixMatch(s, m)
      ensures m <= h + LeadingSpace(s[h..])
    {
      HexMatchStartsAtRun(s, h, m);
    }
  }

  /** The white space starting at `h` is a non-empty run. */
  lemma SpaceRunFrom(s: string, h: nat)
    requires h < |s| && IsWhitespace(s[h])
    ensures var n := h + LeadingSpace(s[h..]);
            h < n <= |s| && AllWhitespace(s[h..n])
  {
    var t := s[h..];
    assert t[0] == s[h];
    assert s[h..h + LeadingSpace(t)] == t[..LeadingSpace(t)];
  }

  /** Without such a run there is no match at all. */
  lemma NoHexMatch(s: string, h: nat)
    requires IsHexRun(s, h) && !(12 <= h < |s| && IsWhitespace(s[h]))
    ensures forall n :: !HexPrefixMatch(s, n)
  {
    forall n | HexPrefixMatch(s, n)
      ensures false
    {
      HexMatchStartsAtRun(s, h, n);
      SpaceRunStarts(s, h, n);
    }
  }

  /** A non-empty run of white space at `h` starts with white space. */
  lemma SpaceRunStarts(s: string, h: nat, n: int)
    requires h < n <= |s| && AllWhitespace(s[h..n])
    ensures IsWhitespace(s[h])
  {
    assert s[h..n][0] == s[h];
  }

  /** In any match, the hex digits are exactly the leading hex run, the white
      space follows it, and the match ends within the white space after it. */
  lemma HexMatchStartsAtRun(s: string, h: nat, n: int)
    requires IsHexRun(s, h) && HexPrefixMatch(s, n)
    ensures 12 <= h < n && AllWhitespace(s[h..n])
    ensures n <= h + LeadingSpace(s[h..])
  {
    var k :| HexSpaceSplit(s, k, n);
    SplitIsAtRun(s, h, k, n);
    var e := h + LeadingSpace(s[h..]);
    assert e < |s| ==> s[h..][e - h] == s[e];
  }

  /** The hex digits of a match end exactly where the hex run ends, since white
      space is never a hex digit. */
  lemma SplitIsAtRun(s: string, h: nat, k: int, n: int)
    requires IsHexRun(s, h) && HexSpaceSplit(s, k, n)
    ensures k == h
  {
    assert IsWhitespace(s[k..n][0]);
  }

  // ---------------------------------------------------------------------------
  // Parenthesised suffix: `replace(/\s*\(.*?\)\s*$/g, '')`

  /** `s[i..]` is a match of `\s*\(.*?\)\s*$`: white space, `(`, characters
      other than line terminators, `)`, white space, end of input. */
  ghost predicate ParenSuffixAt(s: string, i: int) {
    exists j, k :: ParenMatch(s, i, j, k)
  }

  /** The match at `i` has its `(` at `j` and its `)` at `k`. */
  predicate ParenMatch(s: string, i: int, j: int, k: int) {
    && 0 <= i <= j < k < |s|
    && AllWhitespace(s[i..j]) && s[j] == '('
    && NoLineTerminator(s[j + 1..k]) && s[k] == ')' && AllWhitespace(s[k + 1..])
  }

  /** The scan for a match at `i`: the `(` must follow the white space at `i`,
      and the `)` must precede the trailing white space. */
  predicate MatchAt(s: string, i: nat)
    requires i <= |s|
  {
    var j := i + LeadingSpace(s[i..]);
    var k := |s| - TrailingSpace(s) - 1;
    j < k && s[j] == '(' && s[k] == ')' && NoLineTerminator(s[j + 1..k])
  }

  lemma MatchAtIsParenSuffix(s: string, i: nat)
    requires i <= |s|
    ensures MatchAt(s, i) <==> ParenSuffixAt(s, i)
  {
    if MatchAt(s, i) {
      MatchAtGivesParenSuffix(s, i);
    }
    if ParenSuffixAt(s, i) {
      ParenSuffixGivesMatchAt(s, i);
    }
  }

  lemma ParenSuffixGivesMatchAt(s: string, i: nat)
    requires i <= |s| && ParenSuffixAt(s, i)
    ensures MatchAt(s, i)
  {
    var j, k :| ParenMatch(s, i, j, k);
    ParenMatchIsScanned(s, i, j, k);
  }

  /** A match with its `(` at `j` and its `)` at `k` is the one the scan finds. */
  lemma ParenMatchIsScanned(s: string, i: nat, j: int, k: int)
    requires ParenMatch(s, i, j, k)
    ensures j == i + LeadingSpace(s[i..]) && k == |s| - TrailingSpace(s) - 1
    ensures MatchAt(s, i)
  {
    assert !IsWhitespace('(') && !IsWhitespace(')');
    OpenParenFollowsSpace(s, i, j);
    CloseParenPrecedesSpace(s, k);
  }

  lemma MatchAtGivesParenSuffix(s: string, i: nat)
    requires i <= |s| && MatchAt(s, i)
    ensures ParenSuffixAt(s, i)
  {
    var j := i + LeadingSpace(s[i..]);
    var k := |s| - TrailingSpace(s) - 1;
    assert s[i..j] == s[i..][..j - i];
    assert s[k + 1..] == s[|s| - TrailingSpace(s)..];
    assert ParenMatch(s, i, j, k);
  }

  /** The `(` of a match starting at `i` is the first character after the white space at `i`. */
  lemma OpenParenFollowsSpace(s: string, i: nat, j: nat)
    requires i <= j < |s| && AllWhitespace(s[i..j]) && !IsWhitespace(s[j])
    ensures j == i + LeadingSpace(s[i..])
  {
    var t := s[i..];
    var n := LeadingSpace(t);
    assert forall m :: 0 <= m < j - i ==> t[m] == s[i..j][m];
  }

  /** The `)` of a match is the last character before the trailing white space. */
  lemma CloseParenPrecedesSpace(s: string, k: nat)
    requires k < |s| && AllWhitespace(s[k + 1..]) && !IsWhitespace(s[k])
    ensures k == |s| - TrailingSpace(s) - 1
  {
  }

  /** The leftmost position at or after `i` where a match starts. */
  function Leftmost(s: string, i: nat): (r: Option<nat>)
    requires i <= |s| + 1
    ensures r.Some? ==> i <= r.value <= |s| && MatchAt(s, r.value)
    ensures r.Some? ==> forall p :: i <= p < r.value ==> !MatchAt(s, p)
    ensures r.None? ==> forall p :: i <= p <= |s| ==> !MatchAt(s, p)
    decreases |s| + 1 - i
  {
    if i > |s| then None
    else if MatchAt(s, i) then Some(i)
    else Leftmost(s, i + 1)
  }

  function StripParenSuffix(s: string): (r: string)
    // no match: the name is left alone
    ensures (forall i :: !ParenSuffixAt(s, i)) ==> r == s
    // a match: everything from the leftmost match on is removed
    ensures (exists i :: ParenSuffixAt(s, i)) ==>
              && |r| <= |s| && r == s[..|r|]
              && ParenSuffixAt(s, |r|)
              && forall i :: ParenSuffixAt(s, i) ==> |r| <= i
  {
    match Leftmost(s, 0)
    case None =>
      assert forall i :: !ParenSuffixAt(s, i) by {
        forall i | ParenSuffixAt(s, i) ensures false {
          MatchAtIsParenSuffix(s, i);
        }
      }
      s
    case Some(p) =>
      MatchAtIsParenSuffix(s, p);
      assert forall i :: ParenSuffixAt(s, i) ==> p <= i by {
        forall i | ParenSuffixAt(s, i) ensures p <= i {
          if i < p {
            MatchAtIsParenSuffix(s, i);
          }
        }
      }
      s[..p]
  }

  // ---------------------------------------------------------------------------
  // `trim()`

  function Trim(s: string): (r: string)
    // the result is a slice of `s` with only white space cut from either end
    ensures exists a :: 0 <= a <= |s| - |r| && r == s[a..a + |r|]
                        && AllWhitespace(s[..a]) && AllWhitespace(s[a + |r|..])
    // and nothing left to cut
    ensures r != "" ==> !IsWhitespace(r[0]) && !IsWhitespace(r[|r| - 1])
  {
    var a := LeadingSpace(s);
    if a == |s| then
      assert AllWhitespace(s[..a]) && AllWhitespace(s[a + 0..]);
      ""
    else
      var b := |s| - TrailingSpace(s);
      assert AllWhitespace(s[..a]) && AllWhitespace(s[a + (b - a)..]);
      s[a..b]
  }

  /** Trimming twice is trimming once. */
  lemma TrimIdempotent(s: string)
    ensures Trim(Trim(s)) == Trim(s)
  {
    var t := Trim(s);
    if t != "" {
      assert LeadingSpace(t) == 0;
      assert TrailingSpace(t) == 0;
    }
  }

  /** The full clean-up: hex prefix, then parenthesised suffix, then trim. */
  function CleanName(name: string): (r: string)
    ensures r != "" ==> !IsWhitespace(r[0]) && !IsWhitespace(r[|r| - 1])
  {
    Trim(StripParenSuffix(StripHexPrefix(name)))
  }

  /** A name with no device-id prefix, no parenthesised suffix and no
      surrounding white space is shown as it is. */
  lemma CleanNameKeepsPlainNames(name: string)
    requires forall n :: !HexPrefixMatch(name, n)
    requires forall i :: !ParenSuffixAt(name, i)
    requires name != "" ==> !IsWhitespace(name[0]) && !IsWhitespace(name[|name| - 1])
    ensures CleanName(name) == name
  {
    assert LeadingSpace(name) == 0;
    assert TrailingSpace(name) == 0;
  }

  /** `entity_id.split('.')[1]`: the text between the first and second dot. */
  function ObjectIdPart(entityId: string): (r: string)
    requires '.' in entityId
    ensures '.' !in r
    ensures var rest := entityId[IndexOf(entityId, '.') + 1..];
            StartsWith(rest, r) && (|r| == |rest| || rest[|r|] == '.')
  {
    var p := IndexOf(entityId, '.');
    var rest := entityId[p + 1..];
    var e := IndexOf(rest, '.');
    if e == -1 then rest else rest[..e]
  }

  /** The label of a related entity: its friendly name, or the object id when
      the friendly name is missing or empty, cleaned up. An entity id without
      a dot and without a friendly name makes the base card throw. */
  function RelatedEntityName(stateObj: EntityState): (r: string)
    requires Truthy(stateObj.attributes.friendlyName)
             || '.' in stateObj.entityId
    ensures Truthy(stateObj.attributes.friendlyName) ==>
              r == CleanName(stateObj.attributes.friendlyName.value)
    ensures !Truthy(stateObj.attributes.friendlyName) ==>
              r == CleanName(ObjectIdPart(stateObj.entityId))
  {
    var friendly := stateObj.attributes.friendlyName;
    CleanName(if Truthy(friendly) then friendly.value else ObjectIdPart(stateObj.entityId))
  }
}
