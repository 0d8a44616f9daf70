/** The end-tag matcher of nc_read_until() (src/io.c:267-342), on values.

    The matcher keeps only the number of tag bytes matched so far. Each turn it reads
    exactly the bytes still missing from a full tag. When the new block does not complete
    the tag it looks for a tag prefix at the end of the new block alone, and it never tries
    the whole block as a prefix. Earlier bytes are not looked at again, so a tag that
    straddles a block boundary can be missed. */
module Matcher {
  import opened Bytes

  const END_TAG := "]]>]]>"

  /** The last `j` bytes of `s` before offset `end` are the first `j` bytes of `tag`. */
  predicate Ends(tag: string, s: string, end: nat, j: nat) {
    j <= |tag| && j <= end <= |s| && s[end - j..end] == tag[..j]
  }

  /** The longest `j <= i` for which `Ends` holds. */
  function Overlap(tag: string, s: string, end: nat, i: nat): (j: nat)
    requires i <= |tag| && i <= end <= |s|
    ensures j <= i
  {
    if i == 0 || Ends(tag, s, end, i) then i else Overlap(tag, s, end, i - 1)
  }

  lemma {:induction false} OverlapIsLongest(tag: string, s: string, end: nat, i: nat)
    requires i <= |tag| && i <= end <= |s|
    ensures Ends(tag, s, end, Overlap(tag, s, end, i))
    ensures forall k :: Overlap(tag, s, end, i) < k <= i ==> !Ends(tag, s, end, k)
  {
    if i > 0 && !Ends(tag, s, end, i) {
      OverlapIsLongest(tag, s, end, i - 1);
    }
  }

  /** The match length after the block that follows a match of length `m`. */
  function Advance(tag: string, s: string, pos: nat, m: nat): (r: nat)
    requires m < |tag| && pos + |tag| - m <= |s|
  {
    var next := pos + |tag| - m;
    if s[pos..next] == tag[m..] then |tag| else Overlap(tag, s, next, |tag| - m - 1)
  }

  /** Offset just after the bytes consumed when the matcher runs on `s` from offset `pos`
      with `m` tag bytes matched; `None` when the stream ends first. */
  function Scan(tag: string, s: string, pos: nat, m: nat): (r: Option<nat>)
    requires pos <= |s| && m < |tag|
    ensures r.Some? ==> pos < pos + |tag| - m <= r.value <= |s|
    decreases |s| - pos
  {
    var next := pos + |tag| - m;
    if next > |s| then None
    else
      var m' := Advance(tag, s, pos, m);
      if m' >= |tag| then Some(next) else Scan(tag, s, next, m')
  }

  /** Reading until `tag` from the start of `s`. */
  function Until(tag: string, s: string): (r: Option<nat>)
    requires tag != ""
    ensures r.Some? ==> |tag| <= r.value <= |s|
  {
    Scan(tag, s, 0, 0)
  }

  lemma EndsJoin(tag: string, s: string, pos: nat, m: nat)
    requires m < |tag| && Ends(tag, s, pos, m) && pos + |tag| - m <= |s|
    ensures var next := pos + |tag| - m;
            s[pos..next] == tag[m..] <==> Ends(tag, s, next, |tag|)
  {
    var next := pos + |tag| - m;
    var w := s[next - |tag|..next];
    assert w == s[pos - m..pos] + s[pos..next];
    assert tag[..|tag|] == tag[..m] + tag[m..];
    assert w[m..] == s[pos..next] && tag[..|tag|][m..] == tag[m..];
  }

  /** After a turn, the match length again counts tag bytes that end what was read, and it is
      full exactly when a tag ends there; otherwise it is the longest overlap shorter than the block. */
  lemma AdvanceSpec(tag: string, s: string, pos: nat, m: nat)
    requires m < |tag| && Ends(tag, s, pos, m) && pos + |tag| - m <= |s|
    ensures var next := pos + |tag| - m;
            var m' := Advance(tag, s, pos, m);
            && Ends(tag, s, next, m')
            && (m' == |tag| <==> Ends(tag, s, next, |tag|))
            && (m' < |tag| ==>
                  && m' < |tag| - m
                  && forall k :: m' < k < |tag| - m ==> !Ends(tag, s, next, k))
  {
    EndsJoin(tag, s, pos, m);
    OverlapIsLongest(tag, s, pos + |tag| - m, |tag| - m - 1);
  }

  lemma EndsIsAt(tag: string, s: string, o: nat)
    ensures Ends(tag, s, o + |tag|, |tag|) <==> IsAt(s, tag, o)
  {
  }

  /** Whatever the payload, a stop is always right behind a complete tag. */
  lemma {:induction false} ScanSound(tag: string, s: string, pos: nat, m: nat)
    requires m < |tag| && Ends(tag, s, pos, m)
    requires Scan(tag, s, pos, m).Some?
    ensures Ends(tag, s, Scan(tag, s, pos, m).value, |tag|)
    decreases |s| - pos
  {
    var next, m' := pos + |tag| - m, Advance(tag, s, pos, m);
    assert Ends(tag, s, next, m') by { AdvanceSpec(tag, s, pos, m); }
    if m' < |tag| {
      ScanSound(tag, s, next, m');
    }
  }

  /** What is consumed ends with the tag. */
  lemma UntilEndsWithTag(tag: string, s: string)
    requires tag != "" && Until(tag, s).Some?
    ensures EndsWith(s[..Until(tag, s).value], tag)
  {
    var r := Until(tag, s).value;
    assert Ends(tag, s, 0, 0);
    ScanSound(tag, s, 0, 0);
    assert s[..r][r - |tag|..] == s[r - |tag|..r] && tag[..|tag|] == tag;
  }

  lemma SliceLocal(s: string, t: string, i: nat, j: nat)
    requires s <= t && i <= j <= |s|
    ensures t[i..j] == s[i..j]
  {
  }

  lemma {:induction false} OverlapLocal(tag: string, s: string, t: string, end: nat, i: nat)
    requires s <= t && i <= |tag| && i <= end <= |s|
    ensures Overlap(tag, t, end, i) == Overlap(tag, s, end, i)
  {
    SliceLocal(s, t, end - i, end);
    if i > 0 {
      OverlapLocal(tag, s, t, end, i - 1);
    }
  }

  lemma AdvanceLocal(tag: string, s: string, t: string, pos: nat, m: nat)
    requires s <= t && m < |tag| && pos + |tag| - m <= |s|
    ensures Advance(tag, t, pos, m) == Advance(tag, s, pos, m)
  {
    SliceLocal(s, t, pos, pos + |tag| - m);
    OverlapLocal(tag, s, t, pos + |tag| - m, |tag| - m - 1);
  }

  /** The matcher sees nothing beyond what it consumes: `t` is `s` with more bytes behind it. */
  lemma {:induction false} ScanLocal(tag: string, s: string, t: string, pos: nat, m: nat)
    requires s <= t && pos <= |s| && m < |tag|
    requires Scan(tag, s, pos, m).Some?
    ensures Scan(tag, t, pos, m) == Scan(tag, s, pos, m)
    decreases |s| - pos
  {
    AdvanceLocal(tag, s, t, pos, m);
    var m' := Advance(tag, s, pos, m);
    if m' < |tag| {
      ScanLocal(tag, s, t, pos + |tag| - m, m');
    }
  }

  /** `tag` occurs in `p + tag` only at the end: the payload neither holds a tag nor starts one
      that the real tag would complete. Framing with `tag` is ambiguous otherwise. */
  ghost predicate Unambiguous(tag: string, p: string) {
    forall j :: 0 <= j < |p| ==> !IsAt(p + tag, tag, j)
  }

  /** The tag at offset `o` of `s` is the first one. */
  ghost predicate FirstAt(tag: string, s: string, o: nat) {
    && Ends(tag, s, o + |tag|, |tag|)
    && forall e: nat :: e < o + |tag| ==> !Ends(tag, s, e, |tag|)
  }

  /** The matcher's state at its first block boundary at or past offset `o`. */
  function Arrive(tag: string, s: string, o: nat, pos: nat, m: nat): (r: (nat, nat))
    requires pos <= |s| && m < |tag| && pos - m <= o && o + |tag| <= |s|
    decreases |s| - pos
  {
    if pos >= o then (pos, m)
    else
      var next := pos + |tag| - m;
      var m' := Advance(tag, s, pos, m);
      if m' >= |tag| || next - m' > o then (next, |tag|) else Arrive(tag, s, o, next, m')
  }

  /** At the first block boundary at or past the end of the payload, the match length is
      exactly the number of tag bytes read: no payload byte is taken for a start of the tag. */
  predicate Aligned(tag: string, p: string)
    requires tag != ""
  {
    var (boundary, m) := Arrive(tag, p + tag, |p|, 0, 0);
    m == boundary - |p|
  }

  lemma {:induction false} ArriveLocal(tag: string, s: string, t: string, o: nat, pos: nat, m: nat)
    requires s <= t && pos <= |s| && m < |tag| && pos - m <= o && o + |tag| <= |s|
    ensures Arrive(tag, t, o, pos, m) == Arrive(tag, s, o, pos, m)
    decreases |s| - pos
  {
    if pos < o {
      var next, m' := pos + |tag| - m, Advance(tag, s, pos, m);
      assert Advance(tag, t, pos, m) == m' by { AdvanceLocal(tag, s, t, pos, m); }
      if m' < |tag| && next - m' <= o {
        assert Arrive(tag, s, o, pos, m) == Arrive(tag, s, o, next, m');
        assert Arrive(tag, t, o, pos, m) == Arrive(tag, t, o, next, m');
        ArriveLocal(tag, s, t, o, next, m');
      }
    }
  }

  /** Every start of the tag at `o` that has been read is an overlap. */
  lemma TagPrefixEnds(tag: string, s: string, o: nat, end: nat)
    requires Ends(tag, s, o + |tag|, |tag|) && o <= end <= o + |tag|
    ensures Ends(tag, s, end, end - o)
  {
    var w, d := s[o..o + |tag|], end - o;
    assert w == tag by { assert tag[..|tag|] == tag; }
    assert s[o..end] == w[..d];
  }

  /** From a boundary inside the tag at `o` the matcher stops right behind that tag if and only if
      the match length counts tag bytes alone. */
  lemma ScanInsideTag(tag: string, s: string, o: nat, pos: nat, m: nat)
    requires m < |tag| && Ends(tag, s, pos, m) && FirstAt(tag, s, o)
    requires o <= pos && pos - m <= o
    ensures Scan(tag, s, pos, m) == Some(o + |tag|) <==> m == pos - o
  {
    AdvanceSpec(tag, s, pos, m);
    var next := pos + |tag| - m;
    if m > pos - o {
      assert !Ends(tag, s, next, |tag|);
    }
  }

  /** A turn that starts before the first tag does not complete one, and does not skip the tag. */
  lemma StepBeforeTag(tag: string, s: string, o: nat, pos: nat, m: nat)
    requires m < |tag| && Ends(tag, s, pos, m) && FirstAt(tag, s, o) && pos < o
    ensures var next := pos + |tag| - m;
            var m' := Advance(tag, s, pos, m);
            next <= |s| && m' < |tag| && Ends(tag, s, next, m') && next - m' <= o
  {
    var next := pos + |tag| - m;
    AdvanceSpec(tag, s, pos, m);
    assert !Ends(tag, s, next, |tag|);
    if next > o {
      TagPrefixEnds(tag, s, o, next);
    }
  }

  /** From a boundary before the tag at `o`, the stop is right behind that tag if and only if the
      matcher arrives with a match length that counts tag bytes alone. */
  lemma {:induction false} ScanIffArrives(tag: string, s: string, o: nat, pos: nat, m: nat)
    requires m < |tag| && Ends(tag, s, pos, m) && FirstAt(tag, s, o)
    requires pos - m <= o
    ensures Scan(tag, s, pos, m) == Some(o + |tag|)
       <==> Arrive(tag, s, o, pos, m).1 == Arrive(tag, s, o, pos, m).0 - o
    decreases |s| - pos
  {
    if pos >= o {
      ScanInsideTag(tag, s, o, pos, m);
    } else {
      StepBeforeTag(tag, s, o, pos, m);
      ScanIffArrives(tag, s, o, pos + |tag| - m, Advance(tag, s, pos, m));
    }
  }

  lemma UnambiguousIsFirst(tag: string, p: string, rest: string)
    requires tag != "" && Unambiguous(tag, p)
    ensures FirstAt(tag, p + tag + rest, |p|)
  {
    var s := p + tag;
    EndsIsAt(tag, s + rest, |p|);
    SliceLocal(s, s + rest, |p|, |s|);
    forall e: nat | e < |s| ensures !Ends(tag, s + rest, e, |tag|) {
      if e >= |tag| {
        SliceLocal(s, s + rest, e - |tag|, e);
        EndsIsAt(tag, s, e - |tag|);
        assert !IsAt(s, tag, e - |tag|);
      }
    }
  }

  /** Main result on the matcher, for every tag, every unambiguous payload and every continuation:
      the reader returns the payload and its tag and not one byte more if and only if the payload
      is aligned. */
  lemma UntilExactIff(tag: string, p: string, rest: string)
    requires tag != "" && Unambiguous(tag, p)
    ensures Until(tag, p + tag + rest) == Some(|p| + |tag|) <==> Aligned(tag, p)
  {
    var s, t := p + tag, p + tag + rest;
    assert FirstAt(tag, t, |p|) by { UnambiguousIsFirst(tag, p, rest); }
    assert Arrive(tag, t, |p|, 0, 0) == Arrive(tag, s, |p|, 0, 0) by { ArriveLocal(tag, s, t, |p|, 0, 0); }
    assert Ends(tag, t, 0, 0);
    ScanIffArrives(tag, t, |p|, 0, 0);
  }

  /** No non-empty proper prefix of `tag` ends `p`, and `p` does not contain `tag`. */
  ghost predicate Clean(tag: string, p: string) {
    && (forall d :: 0 < d < |tag| ==> !Ends(tag, p, |p|, d))
    && (forall e: nat :: !Ends(tag, p, e, |tag|))
  }

  lemma EndsPrefix(tag: string, p: string, e: nat, k: nat)
    requires Ends(tag, p + tag, e, k)
    ensures e - k < |p| <= e ==> Ends(tag, p, |p|, |p| - (e - k))
    ensures e <= |p| ==> Ends(tag, p, e, k)
  {
    var s := p + tag;
    if e - k < |p| <= e {
      var d := |p| - (e - k);
      assert s[e - k..e][..d] == p[|p| - d..];
      assert tag[..k][..d] == tag[..d];
      SliceLocal(p, s, e - k, |p|);
    }
    if e <= |p| {
      SliceLocal(p, s, e - k, e);
    }
  }

  lemma CleanIsUnambiguous(tag: string, p: string)
    requires tag != "" && Clean(tag, p)
    ensures Unambiguous(tag, p)
  {
    forall j | 0 <= j < |p| ensures !IsAt(p + tag, tag, j) {
      EndsIsAt(tag, p + tag, j);
      if Ends(tag, p + tag, j + |tag|, |tag|) {
        EndsPrefix(tag, p, j + |tag|, |tag|);
      }
    }
  }

  /** Past offset `o` no overlap with the tag reaches back before `o`. */
  ghost predicate NoEarlyStart(tag: string, s: string, o: nat) {
    forall e: nat, k: nat :: o <= e && k < |tag| && Ends(tag, s, e, k) ==> k <= e - o
  }

  lemma CleanHasNoEarlyStart(tag: string, p: string)
    requires tag != "" && Clean(tag, p)
    ensures NoEarlyStart(tag, p + tag, |p|)
  {
    forall e: nat, k: nat | |p| <= e && k < |tag| && Ends(tag, p + tag, e, k)
      ensures k <= e - |p|
    {
      EndsPrefix(tag, p, e, k);
    }
  }

  lemma NotEarly(tag: string, s: string, o: nat, e: nat, k: nat)
    requires NoEarlyStart(tag, s, o) && o <= e && k < |tag| && Ends(tag, s, e, k)
    ensures k <= e - o
  {
  }

  lemma {:induction false} ArrivesInTag(tag: string, s: string, o: nat, pos: nat, m: nat)
    requires m < |tag| && Ends(tag, s, pos, m) && pos <= o
    requires FirstAt(tag, s, o) && NoEarlyStart(tag, s, o)
    ensures Arrive(tag, s, o, pos, m).1 == Arrive(tag, s, o, pos, m).0 - o
    decreases |s| - pos
  {
    if pos == o {
      NotEarly(tag, s, o, pos, m);
    } else {
      var next, m' := pos + |tag| - m, Advance(tag, s, pos, m);
      StepBeforeTag(tag, s, o, pos, m);
      assert Arrive(tag, s, o, pos, m) == Arrive(tag, s, o, next, m');
      if next <= o {
        ArrivesInTag(tag, s, o, next, m');
      } else {
        NotEarly(tag, s, o, next, m');
      }
    }
  }

  /** A payload that does not contain the tag and does not end in a start of it is read exactly,
      whatever follows on the stream. */
  lemma UntilExact(tag: string, p: string, rest: string)
    requires tag != "" && Clean(tag, p)
    ensures Until(tag, p + tag + rest) == Some(|p| + |tag|)
  {
    CleanIsUnambiguous(tag, p);
    UnambiguousIsFirst(tag, p, "");
    assert p + tag + "" == p + tag;
    CleanHasNoEarlyStart(tag, p);
    ArrivesInTag(tag, p + tag, |p|, 0, 0);
    UntilExactIff(tag, p, rest);
  }

  lemma EndsWithEnds(p: string, d: nat)
    requires d <= |END_TAG|
    ensures Ends(END_TAG, p, |p|, d) <==> EndsWith(p, END_TAG[..d])
  {
  }

  lemma EndsInBracket(p: string)
    ensures Ends(END_TAG, p, |p|, 2) || Ends(END_TAG, p, |p|, 4) || Ends(END_TAG, p, |p|, 5) ==> EndsWith(p, "]")
  {
    assert Ends(END_TAG, p, |p|, 2) ==> p[|p| - 2..|p|][1] == END_TAG[..2][1];
    assert Ends(END_TAG, p, |p|, 4) ==> p[|p| - 4..|p|][3] == END_TAG[..4][3];
    assert Ends(END_TAG, p, |p|, 5) ==> p[|p| - 5..|p|][4] == END_TAG[..5][4];
  }

  lemma HoldsTag(tag: string, p: string)
    ensures Contains(p, tag) <==> exists e: nat :: Ends(tag, p, e, |tag|)
  {
    if Contains(p, tag) {
      EndsIsAt(tag, p, Find(p, tag, 0).value);
    }
    if e: nat :| Ends(tag, p, e, |tag|) {
      EndsIsAt(tag, p, e - |tag|);
    }
  }

  lemma CleanStarts(p: string)
    ensures (forall d :: 0 < d < |END_TAG| ==> !Ends(END_TAG, p, |p|, d)) <==>
            !EndsWith(p, "]") && !EndsWith(p, "]]>")
  {
    EndsInBracket(p);
    EndsWithEnds(p, 1);
    EndsWithEnds(p, 3);
    assert END_TAG[..1] == "]" && END_TAG[..3] == "]]>";
    forall d | 0 < d < |END_TAG| && !EndsWith(p, "]") && !EndsWith(p, "]]>")
      ensures !Ends(END_TAG, p, |p|, d)
    {
      assert d == 1 || d == 2 || d == 3 || d == 4 || d == 5;
    }
  }

  /** For the end-of-message tag, clean means: no "]]>]]>" inside, and not ending in ']' or in "]]>". */
  lemma CleanEndTag(p: string)
    ensures Clean(END_TAG, p) <==>
            && !Contains(p, END_TAG)
            && !EndsWith(p, "]")
            && !EndsWith(p, "]]>")
  {
    HoldsTag(END_TAG, p);
    CleanStarts(p);
  }

  lemma {:induction false} OverlapInBlock(tag: string, s: string, pos: nat, end: nat, i: nat)
    requires i <= |tag| && pos + i <= end <= |s|
    ensures Overlap(tag, s, end, i) == Overlap(tag, s[pos..end], end - pos, i)
  {
    assert s[end - i..end] == s[pos..end][end - pos - i..end - pos];
    if i > 0 {
      OverlapInBlock(tag, s, pos, end, i - 1);
    }
  }

  /** The starts of the end tag at the end of six bytes, byte by byte. */
  lemma EndsOfSix(w: string)
    requires |w| == 6
    ensures Ends(END_TAG, w, 6, 1) <==> w[5] == ']'
    ensures Ends(END_TAG, w, 6, 2) <==> w[4] == ']' && w[5] == ']'
    ensures Ends(END_TAG, w, 6, 3) <==> w[3] == ']' && w[4] == ']' && w[5] == '>'
    ensures Ends(END_TAG, w, 6, 4) <==> w[2] == ']' && w[3] == ']' && w[4] == '>' && w[5] == ']'
    ensures Ends(END_TAG, w, 6, 5) <==> w[1] == ']' && w[2] == ']' && w[3] == '>' && w[4] == ']' && w[5] == ']'
  {
    assert w[5..6] == [w[5]] && END_TAG[..1] == "]";
    assert w[4..6] == [w[4], w[5]] && END_TAG[..2] == "]]";
    assert w[3..6] == [w[3], w[4], w[5]] && END_TAG[..3] == "]]>";
    assert w[2..6] == [w[2], w[3], w[4], w[5]] && END_TAG[..4] == "]]>]";
    assert w[1..6] == [w[1], w[2], w[3], w[4], w[5]] && END_TAG[..5] == "]]>]]";
  }

  /** Six bytes without ']' do not end in a start of the end tag. */
  lemma NoBracketNoOverlap(w: string)
    requires |w| == 6 && ']' !in w
    ensures w != END_TAG && Overlap(END_TAG, w, 6, 5) == 0
  {
    EndsOfSix(w);
    OverlapIsLongest(END_TAG, w, 6, 5);
    assert END_TAG[0] == ']';
  }

  lemma AdvanceBlock(s: string, pos: nat)
    requires pos + 6 <= |s|
    ensures Advance(END_TAG, s, pos, 0) ==
            if s[pos..pos + 6] == END_TAG then 6 else Overlap(END_TAG, s[pos..pos + 6], 6, 5)
  {
    assert END_TAG[0..] == END_TAG;
    OverlapInBlock(END_TAG, s, pos, pos + 6, 5);
  }

  /** The matcher's state at its last block boundary before the end of the payload. */
  function LastBefore(p: string, pos: nat, m: nat): (r: (nat, nat))
    requires pos < |p| && m < 6
    ensures pos <= r.0 < |p| && r.1 < 6
    decreases |p| - pos
  {
    var next := pos + 6 - m;
    if next >= |p| || Advance(END_TAG, p, pos, m) >= 6 then (pos, m)
    else LastBefore(p, next, Advance(END_TAG, p, pos, m))
  }

  /** The payload ends in ']', and the block that reaches its end reads no byte of the tag or one, and is longer than
      that by two at least. */
  predicate Misled(p: string) {
    p != "" &&
    var (b, m) := LastBefore(p, 0, 0);
    var k := b + 6 - m - |p|;
    EndsWith(p, "]") && k <= 1 && k + 2 <= 6 - m
  }

  /** Where a start of the end tag longer than the `k` tag bytes read ends `k` bytes behind the payload, the payload
      ends in "]]>", or in ']' and `k` is 0 or 1. */
  lemma LongerStart(p: string, k: nat, j: nat)
    requires k < j < 6 && j - k <= |p| && Ends(END_TAG, p + END_TAG, |p| + k, j)
    ensures EndsWith(p, "]]>") || (k <= 1 && EndsWith(p, "]"))
  {
    var s, d := p + END_TAG, j - k;
    var w := s[|p| - d..|p| + k];
    assert forall i :: 0 <= i < j ==> w[i] == END_TAG[i];
    assert forall i :: 0 <= i < d ==> w[i] == p[|p| - d + i];
    forall i | 0 <= i < k ensures w[d + i] == END_TAG[i] {
      assert w[d + i] == s[|p| + i];
    }
    assert END_TAG[0] == END_TAG[1] == END_TAG[3] == END_TAG[4] == ']' && END_TAG[2] == '>';
    assert p[|p| - 1..] == [p[|p| - 1]];
    if d >= 3 {
      assert p[|p| - 3..] == [p[|p| - 3], p[|p| - 2], p[|p| - 1]];
    }
    assert p[|p| - 1] == END_TAG[d - 1];
    if d == 3 {
      assert p[|p| - 3] == END_TAG[0] && p[|p| - 2] == END_TAG[1];
    }
    assert forall i :: 0 <= i < k ==> END_TAG[d + i] == END_TAG[i];
  }

  lemma NoHalfTag(p: string)
    requires Unambiguous(END_TAG, p)
    ensures !EndsWith(p, "]]>")
  {
    if EndsWith(p, "]]>") {
      assert (p + END_TAG)[|p| - 3..|p| + 3] == p[|p| - 3..] + END_TAG[..3];
      assert "]]>" + END_TAG[..3] == END_TAG;
      assert IsAt(p + END_TAG, END_TAG, |p| - 3);
    }
  }

  lemma ShorterStart(p: string, k: nat)
    requires k <= 1 && EndsWith(p, "]")
    ensures Ends(END_TAG, p + END_TAG, |p| + k, k + 1)
  {
    var s := p + END_TAG;
    assert p[|p| - 1..] == "]";
    assert s[|p| - 1..|p| + k] == p[|p| - 1..] + END_TAG[..k];
    assert "]" + END_TAG[..k] == END_TAG[..k + 1];
  }

  /** The block that reaches the end of the payload gives the right match length unless it is misled. */
  lemma LastBlock(p: string, b: nat, m: nat)
    requires Unambiguous(END_TAG, p) && b < |p| <= b + 6 - m && m < 6 && Ends(END_TAG, p + END_TAG, b, m)
    ensures var k := b + 6 - m - |p|;
            Advance(END_TAG, p + END_TAG, b, m) == k <==> !(EndsWith(p, "]") && k <= 1 && k + 2 <= 6 - m)
  {
    var s, k := p + END_TAG, b + 6 - m - |p|;
    UnambiguousIsFirst(END_TAG, p, "");
    assert p + END_TAG + "" == s;
    StepBeforeTag(END_TAG, s, |p|, b, m);
    AdvanceSpec(END_TAG, s, b, m);
    var m' := Advance(END_TAG, s, b, m);
    TagPrefixEnds(END_TAG, s, |p|, |p| + k);
    NoHalfTag(p);
    if m' > k {
      LongerStart(p, k, m');
    }
    if EndsWith(p, "]") && k <= 1 && k + 2 <= 6 - m {
      ShorterStart(p, k);
    }
  }

  lemma {:induction false} ArriveFromLast(p: string, pos: nat, m: nat)
    requires Unambiguous(END_TAG, p) && pos < |p| && m < 6 && Ends(END_TAG, p + END_TAG, pos, m)
    ensures var (b, j) := LastBefore(p, pos, m);
            var (boundary, k) := Arrive(END_TAG, p + END_TAG, |p|, pos, m);
            && |p| <= b + 6 - j && Ends(END_TAG, p + END_TAG, b, j)
            && boundary == b + 6 - j && k == Advance(END_TAG, p + END_TAG, b, j)
    decreases |p| - pos
  {
    var s, next := p + END_TAG, pos + 6 - m;
    UnambiguousIsFirst(END_TAG, p, "");
    assert p + END_TAG + "" == s;
    StepBeforeTag(END_TAG, s, |p|, pos, m);
    if next < |p| {
      AdvanceLocal(END_TAG, p, s, pos, m);
      ArriveFromLast(p, next, Advance(END_TAG, p, pos, m));
    }
  }

  /** For the end-of-message tag the condition comes down to the last block: a payload is aligned if and only if the
      block that reaches its end is not misled by a ']' there. */
  lemma AlignedIff(p: string)
    requires Unambiguous(END_TAG, p)
    ensures Aligned(END_TAG, p) <==> !Misled(p)
  {
    if p != "" {
      ArriveFromLast(p, 0, 0);
      var (b, m) := LastBefore(p, 0, 0);
      LastBlock(p, b, m);
    }
  }

  lemma BlockWithoutBracket(q: string, pos: nat)
    requires ']' !in q && pos + 6 <= |q|
    ensures Advance(END_TAG, q + "]", pos, 0) == 0
  {
    var s := q + "]";
    var w := s[pos..pos + 6];
    assert forall i :: 0 <= i < 6 ==> w[i] == q[pos + i];
    AdvanceBlock(s, pos);
    NoBracketNoOverlap(w);
  }

  lemma {:induction false} LastOfBracket(q: string, pos: nat)
    requires ']' !in q && pos <= |q| && pos % 6 == 0
    ensures LastBefore(q + "]", pos, 0) == (|q| - |q| % 6, 0)
    decreases |q| - pos
  {
    if pos + 6 <= |q| {
      BlockWithoutBracket(q, pos);
      LastOfBracket(q, pos + 6);
    }
  }

  lemma BracketIsUnambiguous(q: string)
    requires ']' !in q
    ensures Unambiguous(END_TAG, q + "]")
  {
    var p := q + "]";
    var s := p + END_TAG;
    forall j | 0 <= j < |p| ensures !IsAt(s, END_TAG, j) {
      assert j < |q| ==> s[j] == q[j];
      assert s[j..j + 6][0] == s[j] && s[j..j + 6][2] == s[j + 2];
    }
  }

  /** The matcher's limit in closed form: a payload whose only ']' is its last byte is read exactly
      if and only if the bytes before it do not fill a block of six up to one or two bytes. */
  lemma TrailingBracket(q: string, rest: string)
    requires ']' !in q
    ensures Until(END_TAG, q + "]" + END_TAG + rest) == Some(|q| + 7)
       <==> |q| % 6 != 4 && |q| % 6 != 5
  {
    BracketIsUnambiguous(q);
    UntilExactIff(END_TAG, q + "]", rest);
    AlignedIff(q + "]");
    LastOfBracket(q, 0);
  }

  /** A payload that is missed. */
  lemma MissedTag(rest: string)
    ensures Until(END_TAG, "abcd]" + END_TAG + rest) != Some(11)
  {
    assert "abcd" + "]" == "abcd]";
    TrailingBracket("abcd", rest);
  }
}
