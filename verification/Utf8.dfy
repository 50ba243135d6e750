// UTF-8 well-formedness (section 3 and 4 of RFC 3629) and byte-budgeted
// truncation (src/clawt-util.c, clawt_utf8_truncate).

module Utf8 {
  import opened Options

  predicate InRange(c: char, lo: int, hi: int) {
    lo <= c as int <= hi
  }

  // (c & 0xC0) == 0x80 on the byte c
  predicate IsTail(c: char) {
    c as int / 64 % 4 == 2
  }

  // The length of the character s begins with, by the syntax of section 4 of
  // RFC 3629; 0 when s does not begin with a character.
  function CharLength(s: string): (n: nat)
    ensures n <= 4 && n <= |s|
  {
    if |s| >= 1 && InRange(s[0], 0x00, 0x7F) then 1
    else if |s| >= 2 && InRange(s[0], 0xC2, 0xDF) && InRange(s[1], 0x80, 0xBF) then 2
    else if |s| >= 3 && InRange(s[2], 0x80, 0xBF) &&
         ((s[0] as int == 0xE0 && InRange(s[1], 0xA0, 0xBF)) ||
          (InRange(s[0], 0xE1, 0xEC) && InRange(s[1], 0x80, 0xBF)) ||
          (s[0] as int == 0xED && InRange(s[1], 0x80, 0x9F)) ||
          (InRange(s[0], 0xEE, 0xEF) && InRange(s[1], 0x80, 0xBF))) then 3
    else if |s| >= 4 && InRange(s[2], 0x80, 0xBF) && InRange(s[3], 0x80, 0xBF) &&
         ((s[0] as int == 0xF0 && InRange(s[1], 0x90, 0xBF)) ||
          (InRange(s[0], 0xF1, 0xF3) && InRange(s[1], 0x80, 0xBF)) ||
          (s[0] as int == 0xF4 && InRange(s[1], 0x80, 0x8F))) then 4
    else 0
  }

  predicate WellFormed(s: string)
    decreases |s|
  {
    s == "" || (CharLength(s) > 0 && WellFormed(s[CharLength(s)..]))
  }

  // A place to cut: the end, or a byte that does not continue a character.
  predicate IsBoundary(s: string, k: nat)
    requires k <= |s|
  {
    k == |s| || !IsTail(s[k])
  }

  lemma CharBytes(s: string)
    requires CharLength(s) > 0
    ensures !IsTail(s[0])
    ensures forall i :: 0 < i < CharLength(s) ==> IsTail(s[i])
  {
  }

  lemma CharLengthOfPrefix(s: string, k: nat)
    requires k <= |s|
    ensures CharLength(s[..k]) == if CharLength(s) <= k then CharLength(s) else 0
  {
  }

  // Cutting a well-formed text leaves two well-formed halves exactly at the
  // boundaries, and no other cut leaves even one.
  lemma {:induction false} CutsAreBoundaries(s: string, k: nat)
    requires WellFormed(s) && k <= |s|
    ensures WellFormed(s[..k]) <==> IsBoundary(s, k) || k == 0
    ensures WellFormed(s[k..]) <==> IsBoundary(s, k)
    decreases |s|
  {
    if s == "" {
      return;
    }
    var n := CharLength(s);
    CharBytes(s);
    CharLengthOfPrefix(s, k);
    if k == 0 {
      assert s[0..] == s;
    } else if k < n {
      assert IsTail(s[k]);
      assert !WellFormed(s[k..]) by {
        if CharLength(s[k..]) > 0 {
          CharBytes(s[k..]);
        }
      }
    } else {
      CutsAreBoundaries(s[n..], k - n);
      assert s[n..][..k - n] == s[..k][n..];
      assert s[n..][k - n..] == s[k..];
    }
  }

  // Boundaries of a well-formed text are never more than three bytes apart
  // from any position, in either direction.
  lemma {:induction false} BoundaryNearby(s: string, k: nat) returns (lo: nat, hi: nat)
    requires WellFormed(s) && k <= |s|
    ensures lo <= k <= hi <= |s| && hi - lo <= 4 && (lo == k <==> hi == k)
    ensures IsBoundary(s, lo) && IsBoundary(s, hi)
    decreases |s|
  {
    if s == "" || k == 0 {
      if s != "" { CharBytes(s); }
      return 0, 0;
    }
    var n := CharLength(s);
    CharBytes(s);
    if k < n {
      CutsAreBoundaries(s, n);
      lo, hi := 0, n;
    } else {
      lo, hi := BoundaryNearby(s[n..], k - n);
      assert lo < |s[n..]| ==> s[n..][lo] == s[lo + n];
      assert hi < |s[n..]| ==> s[n..][hi] == s[hi + n];
      lo, hi := lo + n, hi + n;
    }
  }

  // g_utf8_find_next_char(text + at, text + |text|): the next lead byte after
  // at, or nothing when the text ends first.
  method FindNextChar(text: string, at: nat) returns (next: Option<nat>)
    requires at < |text|
    ensures next.Some? ==> at < next.value < |text| && !IsTail(text[next.value])
    ensures forall i :: at < i < (if next.Some? then next.value else |text|) ==> IsTail(text[i])
  {
    var p := at + 1;
    while p < |text| && IsTail(text[p])
      invariant at < p <= |text|
      invariant forall i :: at < i < p ==> IsTail(text[i])
    {
      p := p + 1;
    }
    next := if p >= |text| then None else Some(p);
  }

  // What a cut of text to a budget is asked to be.
  ghost predicate Fits(text: string, budget: nat, fromEnd: bool, part: string) {
    |part| <= budget && |part| <= |text| && WellFormed(part) &&
    part == if fromEnd then text[|text| - |part|..] else text[..|part|]
  }

  lemma LongestStart(s: string, budget: nat, end: nat)
    requires WellFormed(s) && end <= budget < |s|
    requires end == 0 || !IsTail(s[end])
    requires forall i :: end < i <= budget ==> IsTail(s[i])
    ensures Fits(s, budget, false, s[..end]) && end > budget - 4
    ensures forall part :: Fits(s, budget, false, part) ==> |part| <= end
  {
    CutsAreBoundaries(s, end);
    var lo, hi := BoundaryNearby(s, budget);
    forall part | Fits(s, budget, false, part) ensures |part| <= end {
      CutsAreBoundaries(s, |part|);
    }
  }

  lemma LongestEnd(s: string, budget: nat, at: nat)
    requires WellFormed(s) && 0 < budget < |s| && |s| - budget <= at <= |s|
    requires IsBoundary(s, at)
    requires forall i :: |s| - budget <= i < at ==> IsTail(s[i])
    ensures Fits(s, budget, true, s[at..]) && |s| - at > budget - 4
    ensures forall part :: Fits(s, budget, true, part) ==> |part| <= |s| - at
  {
    CutsAreBoundaries(s, at);
    var lo, hi := BoundaryNearby(s, |s| - budget);
    forall part | Fits(s, budget, true, part) ensures |part| <= |s| - at {
      CutsAreBoundaries(s, |s| - |part|);
    }
  }

  // The longest part that fits, for every well-formed text and every budget;
  // a cut with a positive budget gives up fewer than four bytes of it.
  method Utf8Truncate(text: Option<string>, maxBytes: nat, fromEnd: bool) returns (r: Option<string>)
    requires text.Some? ==> WellFormed(text.value)
    ensures r.None? <==> text.None?
    ensures text.Some? ==> Fits(text.value, maxBytes, fromEnd, r.value)
    ensures text.Some? ==> forall part :: Fits(text.value, maxBytes, fromEnd, part) ==> |part| <= |r.value|
    ensures text.Some? && |text.value| <= maxBytes ==> r == text
    ensures text.Some? && maxBytes > 0 && |text.value| > maxBytes ==> |r.value| > maxBytes - 4
  {
    if text.None? {
      return None;
    }
    var s := text.value;
    var length := |s|;
    if length <= maxBytes || maxBytes == 0 {
      assert s[..|s|] == s && s[0..] == s && s[|s|..] == "" && s[..0] == "";
      return Some(if maxBytes == 0 then "" else s);
    }
    if fromEnd {
      var start := Some(length - maxBytes);
      if IsTail(s[length - maxBytes]) {
        start := FindNextChar(s, length - maxBytes);
      }
      LongestEnd(s, maxBytes, if start.Some? then start.value else length);
      assert s[length..] == "";
      return Some(if start.Some? then s[start.value..] else "");
    }
    var end := maxBytes;
    while end > 0 && IsTail(s[end])
      invariant 0 <= end <= maxBytes
      invariant forall i :: end < i <= maxBytes ==> IsTail(s[i])
    {
      end := end - 1;
    }
    LongestStart(s, maxBytes, end);
    return Some(s[..end]);
  }
}
