/**
 * The column-label normaliser of `clean_data` (app.py line 15): every occurrence of the
 * prize marker is replaced by "Economics" (Python's `str.replace`) and surrounding
 * whitespace is removed (Python's `str.strip` with no argument).
 */
module Labels {

  /** The substring the cleaner rewrites. */
  const PrizeMarker: string := "(The Sveriges Riksbank Prize)"

  /** What the marker is rewritten to. */
  const Economics: string := "Economics"

  /** Python's `str.isspace` for one character: the characters `str.strip()` removes. */
  predicate IsSpace(c: char) {
    var n := c as int;
    || 0x09 <= n <= 0x0D || 0x1C <= n <= 0x20 || n == 0x85 || n == 0xA0 || n == 0x1680
    || 0x2000 <= n <= 0x200A || n == 0x2028 || n == 0x2029 || n == 0x202F || n == 0x205F
    || n == 0x3000
  }

  /** Every character of `s` is whitespace. */
  predicate AllSpace(s: string) {
    forall k :: 0 <= k < |s| ==> IsSpace(s[k])
  }

  /** `s` neither begins nor ends with whitespace. */
  predicate IsStripped(s: string) {
    |s| == 0 || (!IsSpace(s[0]) && !IsSpace(s[|s| - 1]))
  }

  /** `pat` occurs in `s` starting at position `i`. */
  predicate OccursAt(s: string, pat: string, i: nat) {
    i + |pat| <= |s| && s[i..i + |pat|] == pat
  }

  /** `pat` does not occur in `s` at any position before `n`. */
  ghost predicate NoOccurrenceBefore(s: string, pat: string, n: nat) {
    forall i: nat :: i < n ==> !OccursAt(s, pat, i)
  }

  /** `pat` occurs nowhere in `s`. */
  ghost predicate NoOccurrence(s: string, pat: string) {
    forall i: nat :: !OccursAt(s, pat, i)
  }

  /** Python's `s.lstrip()`: drops the leading whitespace. */
  function TrimLeft(s: string): (r: string)
    ensures |r| <= |s| && r == s[|s| - |r|..]
    ensures AllSpace(s[..|s| - |r|])
    ensures |r| == 0 || !IsSpace(r[0])
  {
    if |s| > 0 && IsSpace(s[0]) then
      var r := TrimLeft(s[1..]);
      SpaceInFront(s, |s| - |r|);
      r
    else s
  }

  /** Python's `s.rstrip()`: drops the trailing whitespace. */
  function TrimRight(s: string): (r: string)
    ensures |r| <= |s| && r == s[..|r|]
    ensures AllSpace(s[|r|..])
    ensures |r| == 0 || !IsSpace(r[|r| - 1])
  {
    if |s| > 0 && IsSpace(s[|s| - 1]) then
      var r := TrimRight(s[..|s| - 1]);
      SpaceBehind(s, |r|);
      r
    else s
  }

  /** A whitespace character in front of a run of whitespace cut from the rest. */
  lemma SpaceInFront(s: string, k: nat)
    requires 0 < k <= |s| && IsSpace(s[0]) && AllSpace(s[1..][..k - 1])
    ensures s[1..][k - 1..] == s[k..]
    ensures AllSpace(s[..k])
  {
    forall i | 0 <= i < k ensures IsSpace(s[..k][i]) {
      if i > 0 {
        assert s[..k][i] == s[1..][..k - 1][i - 1];
      }
    }
  }

  /** A whitespace character behind a run of whitespace cut from the rest. */
  lemma SpaceBehind(s: string, k: nat)
    requires k < |s| && IsSpace(s[|s| - 1]) && AllSpace(s[..|s| - 1][k..])
    ensures s[..|s| - 1][..k] == s[..k]
    ensures AllSpace(s[k..])
  {
    forall i | 0 <= i < |s| - k ensures IsSpace(s[k..][i]) {
      if i < |s| - 1 - k {
        assert s[k..][i] == s[..|s| - 1][k..][i];
      }
    }
  }

  /** Python's `s.strip()`: `s` is the result surrounded by whitespace only, and the
      result neither begins nor ends with whitespace. */
  function Strip(s: string): (r: string)
    ensures IsStripped(r)
    ensures exists lead: string, trail: string :: s == lead + r + trail && AllSpace(lead) && AllSpace(trail)
  {
    var l := TrimLeft(s);
    var r := TrimRight(l);
    StrippedMiddle(l, r);
    Surrounded(s, l, r);
    r
  }

  /** A prefix of a string that does not begin with whitespace, itself not ending with
      whitespace, is stripped. */
  lemma StrippedMiddle(l: string, r: string)
    requires |l| == 0 || !IsSpace(l[0])
    requires |r| <= |l| && r == l[..|r|]
    requires |r| == 0 || !IsSpace(r[|r| - 1])
    ensures IsStripped(r)
  {
    assert |r| > 0 ==> r[0] == l[0];
  }

  /** A prefix `r` of a suffix `l` of `s`, where both cut-off pieces are whitespace, lies
      between two runs of whitespace. */
  lemma Surrounded(s: string, l: string, r: string)
    requires |l| <= |s| && l == s[|s| - |l|..] && AllSpace(s[..|s| - |l|])
    requires |r| <= |l| && r == l[..|r|] && AllSpace(l[|r|..])
    ensures exists lead: string, trail: string :: s == lead + r + trail && AllSpace(lead) && AllSpace(trail)
  {
    var lead, trail := s[..|s| - |l|], l[|r|..];
    assert s == lead + l;
    assert l == r + trail;
    assert s == lead + r + trail;
  }

  /** Python's `s.replace(pat, rep)` for a non-empty `pat`: scanning from the left, each
      occurrence of `pat` that does not overlap an earlier replaced one becomes `rep`. */
  function Replace(s: string, pat: string, rep: string): (r: string)
    requires |pat| > 0
    ensures rep == pat ==> r == s
    ensures |rep| == |pat| ==> |r| == |s|
    decreases |s|
  {
    if |s| < |pat| then s
    else if s[..|pat|] == pat then
      assert s == s[..|pat|] + s[|pat|..];
      rep + Replace(s[|pat|..], pat, rep)
    else
      assert s == [s[0]] + s[1..];
      [s[0]] + Replace(s[1..], pat, rep)
  }

  /** The label rewrite of app.py line 15 for one label. */
  function NormaliseLabel(name: string): (r: string)
    ensures NoOccurrence(r, PrizeMarker)
    ensures IsStripped(r)
    ensures NoOccurrence(name, PrizeMarker) ==> r == Strip(name)
  {
    var replaced := Replace(name, PrizeMarker, Economics);
    ReplaceLeavesNoMarker(name);
    assert NoOccurrence(name, PrizeMarker) ==> replaced == name by {
      if NoOccurrence(name, PrizeMarker) {
        ReplaceWithoutMatch(name, PrizeMarker, Economics);
      }
    }
    var r := Strip(replaced);
    var lead, trail :| replaced == lead + r + trail && AllSpace(lead) && AllSpace(trail);
    NoOccurrenceInfix(lead, r, trail, PrizeMarker);
    r
  }

  /** The list comprehension of app.py line 15: one normalised label per input label,
      in the same order. */
  function NormaliseLabels(labels: seq<string>): (r: seq<string>)
    ensures |r| == |labels|
    ensures forall i :: 0 <= i < |r| ==> r[i] == NormaliseLabel(labels[i])
  {
    seq(|labels|, i requires 0 <= i < |labels| => NormaliseLabel(labels[i]))
  }

  // ---------------------------------------------------------------- lemmas

  /** Removing characters from both ends cannot create an occurrence. */
  lemma NoOccurrenceInfix(lead: string, r: string, trail: string, pat: string)
    requires NoOccurrence(lead + r + trail, pat)
    ensures NoOccurrence(r, pat)
  {
    var s := lead + r + trail;
    forall i: nat | OccursAt(r, pat, i) ensures false {
      assert s[|lead| + i..|lead| + i + |pat|] == r[i..i + |pat|];
      assert OccursAt(s, pat, |lead| + i);
    }
  }

  /** `Replace` changes nothing when the pattern does not occur. */
  lemma {:induction false} ReplaceWithoutMatch(s: string, pat: string, rep: string)
    requires |pat| > 0
    requires NoOccurrence(s, pat)
    ensures Replace(s, pat, rep) == s
    decreases |s|
  {
    if |s| >= |pat| {
      assert !OccursAt(s, pat, 0);
      forall i: nat | OccursAt(s[1..], pat, i) ensures false {
        assert s[1..][i..i + |pat|] == s[i + 1..i + 1 + |pat|];
        assert OccursAt(s, pat, i + 1);
      }
      ReplaceWithoutMatch(s[1..], pat, rep);
      assert s == [s[0]] + s[1..];
    }
  }

  /** The first occurrence of the pattern becomes `rep`: what comes before it is kept as
      it is and the scan goes on right after it. With `ReplaceWithoutMatch` this fixes
      `Replace` on every string. */
  lemma {:induction false} ReplaceAtFirst(a: string, b: string, pat: string, rep: string)
    requires |pat| > 0
    requires NoOccurrenceBefore(a + pat + b, pat, |a|)
    ensures Replace(a + pat + b, pat, rep) == a + rep + Replace(b, pat, rep)
    decreases |a|
  {
    if |a| == 0 {
      ReplaceHit(pat, b, rep);
      assert a + pat + b == pat + b;
    } else {
      NoOccurrenceTail(a, b, pat);
      ReplaceAtFirst(a[1..], b, pat, rep);
      ReplaceKeepFirst(a, b, pat, rep);
    }
  }

  /** The step of `ReplaceAtFirst`: the first character of `a` is kept in front of the
      rewritten rest. */
  lemma ReplaceKeepFirst(a: string, b: string, pat: string, rep: string)
    requires |pat| > 0 && |a| > 0 && NoOccurrenceBefore(a + pat + b, pat, |a|)
    requires Replace(a[1..] + pat + b, pat, rep) == a[1..] + rep + Replace(b, pat, rep)
    ensures Replace(a + pat + b, pat, rep) == a + rep + Replace(b, pat, rep)
  {
    var s := a + pat + b;
    NoOccurrenceTail(a, b, pat);
    ReplaceMiss(s, pat, rep);
    assert s[0] == a[0];
    ConsFirst(a, rep, Replace(b, pat, rep));
  }

  /** Past a first character that starts no occurrence, the occurrences shift by one. */
  lemma NoOccurrenceTail(a: string, b: string, pat: string)
    requires |a| > 0 && NoOccurrenceBefore(a + pat + b, pat, |a|)
    ensures !OccursAt(a + pat + b, pat, 0)
    ensures (a + pat + b)[1..] == a[1..] + pat + b
    ensures NoOccurrenceBefore(a[1..] + pat + b, pat, |a| - 1)
  {
    var s := a + pat + b;
    assert s[1..] == a[1..] + pat + b;
    forall i: nat | i < |a| - 1 ensures !OccursAt(s[1..], pat, i) {
      OccursShift(s, pat, i);
    }
  }

  /** Putting the first character of `a` back in front of the rest. */
  lemma ConsFirst(a: string, rep: string, r: string)
    requires |a| > 0
    ensures [a[0]] + (a[1..] + rep + r) == a + rep + r
  {
    assert a == [a[0]] + a[1..];
  }

  /** A string that starts with the pattern: the pattern becomes `rep`. */
  lemma ReplaceHit(pat: string, b: string, rep: string)
    requires |pat| > 0
    ensures Replace(pat + b, pat, rep) == rep + Replace(b, pat, rep)
  {
    assert (pat + b)[..|pat|] == pat && (pat + b)[|pat|..] == b;
  }

  /** A string that does not start with the pattern: its first character is kept. */
  lemma ReplaceMiss(s: string, pat: string, rep: string)
    requires |pat| > 0 && |s| > 0 && !OccursAt(s, pat, 0)
    ensures Replace(s, pat, rep) == [s[0]] + Replace(s[1..], pat, rep)
  {
    if |s| < |pat| {
      ReplaceWithoutMatch(s[1..], pat, rep);
      forall i: nat | OccursAt(s, pat, i) ensures false {}
      ReplaceWithoutMatch(s, pat, rep);
      assert s == [s[0]] + s[1..];
    }
  }

  /** An occurrence at `i` after the first character is an occurrence at `i + 1`. */
  lemma OccursShift(s: string, pat: string, i: nat)
    requires |s| > 0
    ensures OccursAt(s[1..], pat, i) == OccursAt(s, pat, i + 1)
  {
    if i + 1 + |pat| <= |s| {
      assert s[1..][i..i + |pat|] == s[i + 1..i + 1 + |pat|];
    }
  }

  /** The character facts the rewrite relies on. */
  lemma MarkerFacts()
    ensures |PrizeMarker| == 29 && |Economics| == 9
    ensures PrizeMarker[0] == '(' && Economics[0] == 'E'
    ensures '(' !in Economics && 'E' !in PrizeMarker[1..]
  {
    var tail := PrizeMarker[1..];
    assert tail == "The Sveriges Riksbank Prize)";
    forall k | 0 <= k < |tail| ensures tail[k] != 'E' {
    }
  }

  /** A string that starts with the marker is rewritten to "Economics" and the rest. */
  lemma ReplaceAtMarker(t: string)
    requires |t| >= |PrizeMarker| && t[..|PrizeMarker|] == PrizeMarker
    ensures Replace(t, PrizeMarker, Economics)[0] == 'E'
  {
  }

  /** A prefix of the rewritten string that does not contain 'E' (the first letter of
      "Economics") is a prefix of the original string. */
  lemma {:induction false} ReplacePrefix(t: string, p: string)
    requires 'E' !in p
    requires |Replace(t, PrizeMarker, Economics)| >= |p|
    requires Replace(t, PrizeMarker, Economics)[..|p|] == p
    ensures |t| >= |p| && t[..|p|] == p
    decreases |t|
  {
    MarkerFacts();
    if |p| == 0 || |t| < |PrizeMarker| {
    } else if t[..|PrizeMarker|] == PrizeMarker {
      ReplaceAtMarker(t);
    } else {
      var rest := Replace(t[1..], PrizeMarker, Economics);
      assert Replace(t, PrizeMarker, Economics) == [t[0]] + rest;
      assert rest[..|p| - 1] == p[1..];
      ReplacePrefix(t[1..], p[1..]);
      assert t[..|p|] == [t[0]] + t[1..][..|p| - 1];
    }
  }

  /** An occurrence past a prefix is an occurrence in what follows the prefix. */
  lemma OccursAfterPrefix(pre: string, tail: string, pat: string, i: nat)
    requires i >= |pre| && OccursAt(pre + tail, pat, i)
    ensures OccursAt(tail, pat, i - |pre|)
  {
    assert (pre + tail)[i..i + |pat|] == tail[i - |pre|..i - |pre| + |pat|];
  }

  /** Putting "Economics" in front of a string without a marker creates none. */
  lemma EconomicsPrefixNoMarker(tail: string)
    requires NoOccurrence(tail, PrizeMarker)
    ensures NoOccurrence(Economics + tail, PrizeMarker)
  {
    MarkerFacts();
    forall i: nat | OccursAt(Economics + tail, PrizeMarker, i) ensures false {
      if i >= |Economics| {
        OccursAfterPrefix(Economics, tail, PrizeMarker, i);
      }
    }
  }

  /** A character kept by the scan does not start a marker in the result. */
  lemma KeptCharNotMarkerStart(s: string)
    requires |s| >= |PrizeMarker| && s[..|PrizeMarker|] != PrizeMarker
    ensures !OccursAt(Replace(s, PrizeMarker, Economics), PrizeMarker, 0)
  {
    MarkerFacts();
    var m := PrizeMarker;
    var tail := Replace(s[1..], m, Economics);
    var r := Replace(s, m, Economics);
    assert r == [s[0]] + tail;
    if OccursAt(r, m, 0) {
      OccursAtHead(s[0], tail, m);
      HeadAndRest(s, m);
      ReplacePrefix(s[1..], m[1..]);
    }
  }

  /** An occurrence at the very start covers the first character and continues in the rest. */
  lemma OccursAtHead(c: char, tail: string, m: string)
    requires |m| > 0 && OccursAt([c] + tail, m, 0)
    ensures c == m[0] && |m| - 1 <= |tail| && tail[..|m| - 1] == m[1..]
  {
    assert ([c] + tail)[..|m|] == [c] + tail[..|m| - 1];
  }

  /** A string starts with `m` when its first character and the rest both match. */
  lemma HeadAndRest(s: string, m: string)
    requires 0 < |m| <= |s|
    ensures s[0] == m[0] && s[1..][..|m| - 1] == m[1..] ==> s[..|m|] == m
  {
    if s[0] == m[0] && s[1..][..|m| - 1] == m[1..] {
      assert s[..|m|] == [s[0]] + s[1..][..|m| - 1];
    }
  }

  /** Nor does any later position, when the rest of the result holds no marker. */
  lemma KeptCharNoMarker(s: string)
    requires |s| >= |PrizeMarker| && s[..|PrizeMarker|] != PrizeMarker
    requires NoOccurrence(Replace(s[1..], PrizeMarker, Economics), PrizeMarker)
    ensures NoOccurrence(Replace(s, PrizeMarker, Economics), PrizeMarker)
  {
    var tail := Replace(s[1..], PrizeMarker, Economics);
    assert Replace(s, PrizeMarker, Economics) == [s[0]] + tail;
    forall i: nat | OccursAt([s[0]] + tail, PrizeMarker, i) ensures false {
      if i == 0 {
        KeptCharNotMarkerStart(s);
      } else {
        OccursAfterPrefix([s[0]], tail, PrizeMarker, i);
      }
    }
  }

  /** After the rewrite no marker is left: "Economics" contains no '(' (the marker's first
      character) and the marker's remaining characters contain no 'E', so no occurrence can
      straddle an inserted "Economics", and the scan has removed every other occurrence. */
  lemma {:induction false} ReplaceLeavesNoMarker(s: string)
    ensures NoOccurrence(Replace(s, PrizeMarker, Economics), PrizeMarker)
    decreases |s|
  {
    if |s| < |PrizeMarker| {
      forall i: nat | OccursAt(s, PrizeMarker, i) ensures false {}
    } else if s[..|PrizeMarker|] == PrizeMarker {
      ReplaceLeavesNoMarker(s[|PrizeMarker|..]);
      EconomicsPrefixNoMarker(Replace(s[|PrizeMarker|..], PrizeMarker, Economics));
    } else {
      ReplaceLeavesNoMarker(s[1..]);
      KeptCharNoMarker(s);
    }
  }

  /** Normalising a label twice gives the same label as normalising it once. */
  lemma NormaliseIdempotent(name: string)
    ensures NormaliseLabel(NormaliseLabel(name)) == NormaliseLabel(name)
  {
    var once := NormaliseLabel(name);
    ReplaceWithoutMatch(once, PrizeMarker, Economics);
    StripStripped(once);
  }

  /** `Strip` leaves a string with no surrounding whitespace as it is. */
  lemma StripStripped(s: string)
    requires IsStripped(s)
    ensures Strip(s) == s
  {
  }

  /** Normalising the list of labels twice changes nothing more than normalising it once. */
  lemma NormaliseLabelsIdempotent(labels: seq<string>)
    ensures NormaliseLabels(NormaliseLabels(labels)) == NormaliseLabels(labels)
  {
    forall i | 0 <= i < |labels| {
      NormaliseIdempotent(labels[i]);
    }
  }

  /** The name "Year", which names the first column, is left as it is. */
  lemma YearLabelUnchanged()
    ensures NormaliseLabel("Year") == "Year"
  {
    assert NoOccurrence("Year", PrizeMarker);
    ReplaceWithoutMatch("Year", PrizeMarker, Economics);
    StripStripped("Year");
  }
}
