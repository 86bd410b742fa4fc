/**
 * StrFind and StrReplace from the bundled NTFS-links library: substring
 * search over C strings of fewer than MAX_PATH characters, in either
 * direction, and single replacement. A C string is modelled by its
 * characters up to the terminator; reading the terminator, or the byte
 * before the first character, matches nothing.
 */
module StringUtils {
  import opened Wrappers
  import opened Strings

  const MaxPath: nat := 260

  /** StringCchLength(s, MAX_PATH) succeeds and reports a non-zero length. */
  predicate LengthAccepted(s: string) { 0 < |s| < MaxPath }

  /** The character at a pattern index; outside the pattern there is none. */
  function SubAt(sub: string, j: int): (r: Option<char>)
    ensures r.Some? <==> 0 <= j < |sub|
  {
    if 0 <= j < |sub| then Some(sub[j]) else None
  }

  /**
   * The search loop, one iteration per call: idx walks the string in
   * direction dir, subIdx walks the pattern, result is the index where the
   * current partial match began or -1.
   */
  function Scan(str: string, sub: string, idx: int, dir: int, subIdx: int, result: int): int
    requires dir == 1 || dir == -1
    decreases if dir > 0 then |str| - idx else idx + 1
  {
    if idx < 0 || idx >= |str| then result
    else if SubAt(sub, subIdx) == Some(str[idx]) then
      Scan(str, sub, idx + dir, dir, subIdx + dir, if result < 0 then idx else result)
    else if result >= 0 && (idx - result) * dir >= |sub| then result
    else Scan(str, sub, idx + dir, dir, if dir < 0 then |sub| - 1 else 0, -1)
  }

  /** Where the scan starts: a negative start counts back from the length. */
  function StartIndex(str: string, startIdx: int): int
  {
    var s := if startIdx < 0 then startIdx + |str| else startIdx;
    if s < |str| - 1 then s else |str| - 1
  }

  /** The guards StrFind applies before it searches. */
  predicate SearchAllowed(str: string, sub: string, startIdx: int)
  {
    LengthAccepted(str) && LengthAccepted(sub) && |sub| <= |str| && startIdx < |str|
  }

  /** StrFind, as written. */
  function StrFindAsWritten(str: string, sub: string, startIdx: int, dir: int): (r: int)
    requires dir == 1 || dir == -1
    ensures !SearchAllowed(str, sub, startIdx) ==> r == -1
  {
    if !SearchAllowed(str, sub, startIdx) then -1
    else
      var r := Scan(str, sub, StartIndex(str, startIdx), dir, if dir < 0 then |sub| - 1 else 0, -1);
      if r >= 0 && dir < 0 then r - |sub| + 1 else r
  }

  /** The state the forward scan keeps: the current partial match is a prefix of the pattern. */
  predicate ForwardState(str: string, sub: string, idx: int, subIdx: int, result: int)
  {
    0 <= idx <= |str| &&
    (result < 0 ==> result == -1 && subIdx == 0) &&
    (result >= 0 ==> result <= idx && subIdx == idx - result && subIdx <= |sub| && str[result..idx] == sub[..subIdx])
  }

  /**
   * What a forward scan reports: -1, a full occurrence, or a partial match
   * that runs into the end of the string.
   */
  predicate ForwardAnswer(str: string, sub: string, from: int, r: int)
  {
    r == -1 ||
    (0 <= r && from <= r && (r + |sub| <= |str| ==> OccursAt(str, sub, r)) &&
     (r + |sub| > |str| ==> r <= |str| && str[r..] == sub[..|str| - r]))
  }

  lemma {:induction false} ScanForward(str: string, sub: string, idx: int, subIdx: int, result: int)
    requires |sub| > 0 && ForwardState(str, sub, idx, subIdx, result)
    ensures ForwardAnswer(str, sub, if result >= 0 then result else idx, Scan(str, sub, idx, 1, subIdx, result))
    decreases |str| - idx
  {
    if idx >= |str| {
      if result >= 0 {
        assert str[result..] == str[result..idx];
      }
    } else if SubAt(sub, subIdx) == Some(str[idx]) {
      var next := if result < 0 then idx else result;
      assert str[next..idx + 1] == sub[..subIdx + 1] by {
        if result >= 0 {
          assert str[result..idx + 1] == str[result..idx] + [str[idx]];
          assert sub[..subIdx + 1] == sub[..subIdx] + [sub[subIdx]];
        }
      }
      ScanForward(str, sub, idx + 1, subIdx + 1, next);
    } else if result >= 0 && idx - result >= |sub| {
      assert subIdx == |sub|;
    } else {
      ScanForward(str, sub, idx + 1, 0, -1);
    }
  }

  /**
   * A forward StrFind that answers an index answers either an occurrence at
   * or after the start, or the start of a partial match cut off by the end
   * of the string.
   */
  lemma StrFindForwardAnswer(str: string, sub: string, startIdx: int)
    ensures ForwardAnswer(str, sub, StartIndex(str, startIdx), StrFindAsWritten(str, sub, startIdx, 1))
  {
    if SearchAllowed(str, sub, startIdx) {
      var s := StartIndex(str, startIdx);
      if 0 <= s {
        ScanForward(str, sub, s, 0, -1);
      }
    }
  }

  lemma {:induction false} ScanThroughMatch(str: string, sub: string, idx: int, subIdx: int, result: int)
    requires 0 <= result && OccursAt(str, sub, result) && 0 <= subIdx <= |sub| && idx == result + subIdx
    ensures Scan(str, sub, idx, 1, subIdx, result) == result
    decreases |sub| - subIdx
  {
    if subIdx < |sub| {
      assert str[idx] == str[result..result + |sub|][subIdx];
      ScanThroughMatch(str, sub, idx + 1, subIdx + 1, result);
    }
  }

  /** The state the backward scan keeps: the current partial match is a suffix of the pattern. */
  predicate BackwardState(str: string, sub: string, idx: int, subIdx: int, result: int)
  {
    -1 <= idx < |str| &&
    (result < 0 ==> result == -1 && subIdx == |sub| - 1) &&
    (result >= 0 ==>
      idx <= result < |str| && subIdx == |sub| - 1 - (result - idx) && -1 <= subIdx &&
      str[idx + 1..result + 1] == sub[subIdx + 1..])
  }

  /** What a backward scan reports, once corrected by |sub| - 1: nothing, or a full occurrence. */
  predicate BackwardAnswer(str: string, sub: string, r: int)
  {
    r < 0 || r - |sub| + 1 < 0 || OccursAt(str, sub, r - |sub| + 1)
  }

  lemma {:induction false} ScanBackward(str: string, sub: string, idx: int, subIdx: int, result: int)
    requires |sub| > 0 && BackwardState(str, sub, idx, subIdx, result)
    ensures BackwardAnswer(str, sub, Scan(str, sub, idx, -1, subIdx, result))
    decreases idx + 1
  {
    if idx < 0 {
      if result >= 0 && result - |sub| + 1 >= 0 {
        BackwardComplete(str, sub, idx, subIdx, result);
      }
    } else if SubAt(sub, subIdx) == Some(str[idx]) {
      BackwardExtend(str, sub, idx, subIdx, result);
      ScanBackward(str, sub, idx - 1, subIdx - 1, if result < 0 then idx else result);
    } else if result >= 0 && (idx - result) * -1 >= |sub| {
      BackwardComplete(str, sub, idx, subIdx, result);
    } else {
      ScanBackward(str, sub, idx - 1, |sub| - 1, -1);
    }
  }

  /** A matching character extends the partial match by one place to the left. */
  lemma BackwardExtend(str: string, sub: string, idx: int, subIdx: int, result: int)
    requires |sub| > 0 && BackwardState(str, sub, idx, subIdx, result)
    requires 0 <= idx && SubAt(sub, subIdx) == Some(str[idx])
    ensures BackwardState(str, sub, idx - 1, subIdx - 1, if result < 0 then idx else result)
  {
    if result >= 0 {
      assert str[idx..result + 1] == [str[idx]] + str[idx + 1..result + 1];
      assert sub[subIdx..] == [sub[subIdx]] + sub[subIdx + 1..];
    } else {
      assert str[idx..idx + 1] == [str[idx]];
      assert sub[subIdx..] == [sub[subIdx]];
    }
  }

  /** A partial match as long as the pattern is an occurrence. */
  lemma BackwardComplete(str: string, sub: string, idx: int, subIdx: int, result: int)
    requires BackwardState(str, sub, idx, subIdx, result)
    requires result >= 0 && result - idx >= |sub|
    ensures BackwardAnswer(str, sub, result)
  {
    assert result - idx == |sub| && subIdx == -1;
    var k := idx + 1;
    assert k + |sub| == result + 1 <= |str|;
    assert sub[subIdx + 1..] == sub;
    assert str[k..k + |sub|] == sub;
    assert OccursAt(str, sub, k);
  }

  /** A backward StrFind that answers an index answers a full occurrence: only the forward scan can stop short. */
  lemma StrFindBackwardAnswer(str: string, sub: string, startIdx: int)
    ensures var r := StrFindAsWritten(str, sub, startIdx, -1); r < 0 || OccursAt(str, sub, r)
  {
    if SearchAllowed(str, sub, startIdx) {
      var s := StartIndex(str, startIdx);
      if s < -1 {
        assert Scan(str, sub, s, -1, |sub| - 1, -1) == -1;
      } else {
        ScanBackward(str, sub, s, |sub| - 1, -1);
      }
    }
  }

  /** When the pattern occurs exactly at the start, a forward StrFind finds it there. */
  lemma StrFindAtStart(str: string, sub: string, startIdx: int)
    requires SearchAllowed(str, sub, startIdx) && 0 <= StartIndex(str, startIdx)
    requires OccursAt(str, sub, StartIndex(str, startIdx))
    ensures StrFindAsWritten(str, sub, startIdx, 1) == StartIndex(str, startIdx)
  {
    var s := StartIndex(str, startIdx);
    assert str[s] == str[s..s + |sub|][0];
    ScanThroughMatch(str, sub, s + 1, 1, s);
  }

  /** A partial match at the end of the string is reported as found. */
  lemma PartialMatchReported()
    ensures StrFindAsWritten("ab", "bc", 0, 1) == 1
    ensures forall k :: !OccursAt("ab", "bc", k)
  {
    assert Scan("ab", "bc", 0, 1, 0, -1) == Scan("ab", "bc", 1, 1, 0, -1);
    assert Scan("ab", "bc", 1, 1, 0, -1) == Scan("ab", "bc", 2, 1, 1, 1);
  }

  /** After a failed partial match the current character is not tried again, so "ab" is missed in "aab". */
  lemma RestartMissesMatch()
    ensures StrFindAsWritten("aab", "ab", 0, 1) == -1
    ensures OccursAt("aab", "ab", 1)
  {
    assert Scan("aab", "ab", 0, 1, 0, -1) == Scan("aab", "ab", 1, 1, 1, 0);
    assert Scan("aab", "ab", 1, 1, 1, 0) == Scan("aab", "ab", 2, 1, 0, -1);
    assert Scan("aab", "ab", 2, 1, 0, -1) == Scan("aab", "ab", 3, 1, 0, -1);
    assert "aab"[1..3] == "ab";
  }

  /** The last index at or below k where pat occurs. */
  function FindBack(s: string, pat: string, k: int): (r: Option<nat>)
    ensures r.Some? ==> r.value <= k && OccursAt(s, pat, r.value)
    ensures r.Some? ==> forall j :: r.value < j <= k ==> !OccursAt(s, pat, j)
    ensures r.None? ==> forall j :: 0 <= j <= k ==> !OccursAt(s, pat, j)
    decreases k + 1
  {
    if k < 0 then None
    else if OccursAt(s, pat, k) then Some(k)
    else FindBack(s, pat, k - 1)
  }

  /**
   * StrFind as documented: forward, the first occurrence starting at or
   * after the start; backward, the last occurrence ending at or before it.
   */
  function StrFind(str: string, sub: string, startIdx: int, dir: int): (r: int)
    requires dir == 1 || dir == -1
    ensures !SearchAllowed(str, sub, startIdx) ==> r == -1
    ensures r == -1 || (0 <= r && OccursAt(str, sub, r))
    ensures SearchAllowed(str, sub, startIdx) && dir == 1 && StartIndex(str, startIdx) >= 0 ==>
      (r >= 0 ==> StartIndex(str, startIdx) <= r && forall j :: StartIndex(str, startIdx) <= j < r ==> !OccursAt(str, sub, j)) &&
      (r == -1 ==> forall j :: StartIndex(str, startIdx) <= j ==> !OccursAt(str, sub, j))
    ensures SearchAllowed(str, sub, startIdx) && dir == -1 ==>
      (r >= 0 ==> (r + |sub| - 1 <= StartIndex(str, startIdx) &&
        forall j :: r < j && j + |sub| - 1 <= StartIndex(str, startIdx) ==> !OccursAt(str, sub, j))) &&
      (r == -1 ==> forall j :: 0 <= j && j + |sub| - 1 <= StartIndex(str, startIdx) ==> !OccursAt(str, sub, j))
  {
    if !SearchAllowed(str, sub, startIdx) then -1
    else
      var s := StartIndex(str, startIdx);
      if dir > 0 then
        if s < 0 then -1
        else match FindFrom(str, sub, s)
          case None => -1
          case Some(k) => k
      else match FindBack(str, sub, s - |sub| + 1)
        case None => -1
        case Some(k) => k
  }

  /** Where the two agree: an occurrence at the start itself is found by both. */
  lemma AsWrittenAgreesAtStart(str: string, sub: string, startIdx: int)
    requires SearchAllowed(str, sub, startIdx) && 0 <= StartIndex(str, startIdx)
    requires OccursAt(str, sub, StartIndex(str, startIdx))
    ensures StrFindAsWritten(str, sub, startIdx, 1) == StrFind(str, sub, startIdx, 1)
  {
    StrFindAtStart(str, sub, startIdx);
    FindFirst(str, sub, StartIndex(str, startIdx), StartIndex(str, startIdx));
  }

  /** StringCchCat into a MAX_PATH buffer keeps at most MAX_PATH - 1 characters. */
  function Truncate(s: string): (r: string)
    ensures |r| < MaxPath && StartsWith(s, r)
    ensures |s| < MaxPath ==> r == s
  {
    if |s| < MaxPath then s else s[..MaxPath - 1]
  }

  datatype ReplaceError =
    | LengthRefused   // StrReplace returns false: a string is empty or MAX_PATH long or more
    | ReadsPastEnd    // the text after the found index starts beyond the terminator (undefined behaviour)

  /** The search StrReplace makes: StrFind as written, or the corrected one. */
  function FindFor(src: string, search: string, startIdx: int, dir: int, asWritten: bool): int
    requires dir == 1 || dir == -1
  {
    if asWritten then StrFindAsWritten(src, search, startIdx, dir) else StrFind(src, search, startIdx, dir)
  }

  /**
   * StrReplace: a failure where the source returns false; otherwise the
   * source with the text found replaced, or the source itself when nothing
   * is found. asWritten selects the StrFind the source calls; its report of
   * a partial match cut off by the end of the string makes the copy of the
   * rest start past the terminator.
   */
  function StrReplace(src: string, search: string, replace: string, startIdx: int, dir: int, asWritten: bool): (r: Result<string, ReplaceError>)
    requires dir == 1 || dir == -1
    ensures r == Failure(LengthRefused) <==> !LengthAccepted(src) || !LengthAccepted(search)
    ensures r == Failure(ReadsPastEnd) <==> (LengthAccepted(src) && LengthAccepted(search) &&
      var i := FindFor(src, search, startIdx, dir, asWritten); i >= 0 && i + |search| > |src|)
    ensures r.Success? && FindFor(src, search, startIdx, dir, asWritten) < 0 ==> r.value == src
    ensures r.Success? && FindFor(src, search, startIdx, dir, asWritten) >= 0 ==>
      var i := FindFor(src, search, startIdx, dir, asWritten);
      i + |search| <= |src| && src[i..i + |search|] == search &&
      r.value == Truncate(src[..i] + replace + src[i + |search|..])
  {
    if !LengthAccepted(src) || !LengthAccepted(search) then Failure(LengthRefused)
    else
      var found := FindFor(src, search, startIdx, dir, asWritten);
      if found < 0 then Success(src)
      else if found + |search| > |src| then Failure(ReadsPastEnd)
      else
        FoundOccurs(src, search, startIdx, dir, asWritten);
        Success(Truncate(src[..found] + replace + src[found + |search|..]))
  }

  /**
   * Wherever either search reports an index that leaves room for the whole
   * pattern, the pattern is there.
   */
  lemma FoundOccurs(src: string, search: string, startIdx: int, dir: int, asWritten: bool)
    requires dir == 1 || dir == -1
    requires var i := FindFor(src, search, startIdx, dir, asWritten); 0 <= i && i + |search| <= |src|
    ensures OccursAt(src, search, FindFor(src, search, startIdx, dir, asWritten))
  {
    if !asWritten {
    } else if dir == 1 {
      StrFindForwardAnswer(src, search, startIdx);
    } else {
      StrFindBackwardAnswer(src, search, startIdx);
    }
  }

  /**
   * Replacing back: after a corrected forward replacement at i, replacing
   * the new text by the old from i restores the source, as long as nothing
   * was cut.
   */
  lemma ReplaceBack(src: string, search: string, replace: string, startIdx: int)
    requires StrReplace(src, search, replace, startIdx, 1, false).Success?
    requires StrFind(src, search, startIdx, 1) >= 0
    requires 0 < |replace| && |src| - |search| + |replace| < MaxPath
    ensures var i := StrFind(src, search, startIdx, 1);
      StrReplace(StrReplace(src, search, replace, startIdx, 1, false).value, replace, search, i, 1, false) == Success(src)
  {
    var i := StrFind(src, search, startIdx, 1);
    var t := src[..i] + replace + src[i + |search|..];
    assert StrReplace(src, search, replace, startIdx, 1, false).value == t;
    assert t[i..i + |replace|] == replace;
    assert StartIndex(t, i) == i;
    FindFirst(t, replace, i, i);
    assert StrFind(t, replace, i, 1) == i;
    assert t[..i] + search + t[i + |replace|..] == src by {
      assert t[..i] == src[..i];
      assert t[i + |replace|..] == src[i + |search|..];
      assert src == src[..i] + src[i..i + |search|] + src[i + |search|..];
    }
  }

  /** The missed match of StrFind carries over: as written, "ab" in "aab" is left unreplaced. */
  lemma ReplaceMissesAsWritten()
    ensures StrReplace("aab", "ab", "X", 0, 1, true) == Success("aab")
    ensures StrReplace("aab", "ab", "X", 0, 1, false) == Success("aX")
  {
    RestartMissesMatch();
    assert "aab"[1..3] == "ab" && !OccursAt("aab", "ab", 0);
    FindFirst("aab", "ab", 0, 1);
    assert "aab"[..1] + "X" + "aab"[3..] == "aX";
  }

  /**
   * The reported partial match carries over: as written, replacing "bc" in
   * "ab" copies from past the terminator, where the corrected search finds
   * nothing and copies the source.
   */
  lemma ReplacePastEndAsWritten()
    ensures StrReplace("ab", "bc", "X", 0, 1, true) == Failure(ReadsPastEnd)
    ensures StrReplace("ab", "bc", "X", 0, 1, false) == Success("ab")
  {
    PartialMatchReported();
  }
}
