/** The guard over the M15 probe object (tools/verify_m15_probe_object_window.py):
    it blanks the displacements of near conditional jumps in two texts, makes one
    declared replacement in the first and compares. */
module ObjectWindow {
  import opened Bits

  const OLD_SETUP: seq<U8> := [0x48, 0x89, 0xc7, 0x4c, 0x89, 0xe6, 0x48, 0xc7, 0xc0, 0x05, 0, 0, 0]

  const NEW_SETUP: seq<U8> :=
    [0x48, 0xc7, 0xc0, 0x48, 0, 0, 0] + [0x48, 0xc7, 0xc7, 0x06, 0, 0, 0] + [0x48, 0xc7, 0xc6, 0x03, 0, 0, 0]
    + [0x48, 0x31, 0xd2] + [0x0f, 0x05] + [0x48, 0x85, 0xc0] + [0x0f, 0x85, 0, 0, 0, 0]
    + [0x48, 0xc7, 0xc7, 0x06, 0, 0, 0] + [0x4c, 0x89, 0xe6] + [0x48, 0xc7, 0xc0, 0x05, 0, 0, 0]

  // ---------------------------------------------------------------- the normaliser

  /** A whole near conditional jump starts the text. */
  predicate JumpFirst(text: seq<U8>) {
    |text| >= 6 && text[0] == 0x0f && 0x80 <= text[1] <= 0x8f
  }

  function Normal(text: seq<U8>): seq<U8> {
    if |text| < 6 then text
    else if JumpFirst(text) then text[..2] + [0, 0, 0, 0] + Normal(text[6..])
    else [text[0]] + Normal(text[1..])
  }

  /** Where the jumps start, scanning from the left and over each one found. */
  function Jumps(text: seq<U8>): set<nat> {
    if |text| < 6 then {}
    else if JumpFirst(text) then {0} + Shifted(Jumps(text[6..]), 6)
    else Shifted(Jumps(text[1..]), 1)
  }

  function Shifted(s: set<nat>, distance: nat): set<nat> {
    set i | i in s :: i + distance
  }

  /** Position i holds a displacement byte of one of the jumps. */
  predicate Blank(jumps: set<nat>, i: nat) {
    (i >= 2 && i - 2 in jumps) || (i >= 3 && i - 3 in jumps) || (i >= 4 && i - 4 in jumps) || (i >= 5 && i - 5 in jumps)
  }

  /** The bytes 0f 80 to 0f 8f with four more after them. */
  predicate JumpAt(text: seq<U8>, i: nat) {
    i + 6 <= |text| && text[i] == 15 && 128 <= text[i + 1] < 144
  }

  /** One of the five positions before j is among the jumps. */
  predicate Within(jumps: set<nat>, j: nat) {
    || (j >= 1 && j - 1 in jumps) || (j >= 2 && j - 2 in jumps) || (j >= 3 && j - 3 in jumps)
    || (j >= 4 && j - 4 in jumps) || (j >= 5 && j - 5 in jumps)
  }

  /** The jumps are the positions that hold one, save those inside an earlier jump. */
  lemma {:induction false} JumpsExact(text: seq<U8>, j: nat)
    ensures j in Jumps(text) <==> JumpAt(text, j) && !Within(Jumps(text), j)
    decreases |text|
  {
    if |text| >= 6 {
      var n := if JumpFirst(text) then 6 else 1;
      InRest(text, n, j);
      hide Jumps;
      if j >= n {
        JumpsExact(text[n..], j - n);
        WithinShift(text, n, j);
      } else if j >= 1 {
        InRest(text, n, 0);
      }
    }
  }

  lemma ShiftedHas(s: set<nat>, distance: nat, i: nat)
    ensures i in Shifted(s, distance) <==> i >= distance && i - distance in s
  {
  }

  /** A position is a jump of the text iff it is the one in front or one of the rest. */
  lemma InRest(text: seq<U8>, n: nat, i: nat)
    requires |text| >= 6 && n == (if JumpFirst(text) then 6 else 1)
    ensures i in Jumps(text) <==> (n == 6 && i == 0) || (i >= n && i - n in Jumps(text[n..]))
  {
    hide Shifted;
    ShiftedHas(Jumps(text[n..]), n, i);
  }

  lemma WithinShift(text: seq<U8>, n: nat, j: nat)
    requires |text| >= 6 && n == (if JumpFirst(text) then 6 else 1) && j >= n
    ensures Within(Jumps(text), j) <==> Within(Jumps(text[n..]), j - n)
  {
    hide Jumps, JumpFirst;
    InRestBefore(text, n, j, 1);
    InRestBefore(text, n, j, 2);
    InRestBefore(text, n, j, 3);
    InRestBefore(text, n, j, 4);
    InRestBefore(text, n, j, 5);
  }

  lemma InRestBefore(text: seq<U8>, n: nat, j: nat, d: nat)
    requires |text| >= 6 && n == (if JumpFirst(text) then 6 else 1) && j >= n && 1 <= d <= 5
    ensures j >= d && j - d in Jumps(text) <==> j - n >= d && j - n - d in Jumps(text[n..])
  {
    hide Jumps, JumpFirst;
    if j >= d {
      InRest(text, n, j - d);
    }
  }

  /** Blanking zeroes exactly the displacements and keeps every other byte. */
  lemma {:induction false} NormalAt(text: seq<U8>)
    ensures |Normal(text)| == |text|
    ensures forall i :: 0 <= i < |text| ==> Normal(text)[i] == if Blank(Jumps(text), i) then 0 else text[i]
  {
    if |text| >= 6 {
      var n := if JumpFirst(text) then 6 else 1;
      NormalAt(text[n..]);
      BlankShifted(text, n);
    }
  }

  lemma BlankShifted(text: seq<U8>, n: nat)
    requires |text| >= 6 && n == (if JumpFirst(text) then 6 else 1)
    ensures forall i :: i >= n ==> (Blank(Jumps(text), i) <==> Blank(Jumps(text[n..]), i - n))
    ensures forall i :: 0 <= i < n ==> (Blank(Jumps(text), i) <==> n == 6 && i >= 2)
  {
    var rest := Jumps(text[n..]);
    assert forall i :: i in Jumps(text) <==> (n == 6 && i == 0) || (i >= n && i - n in rest);
  }

  /** Blanking does not move the jumps. */
  lemma {:induction false} NormalKeepsJumps(text: seq<U8>)
    ensures Jumps(Normal(text)) == Jumps(text)
  {
    NormalAt(text);
    if |text| >= 6 {
      if JumpFirst(text) {
        NormalKeepsJumps(text[6..]);
        assert Normal(text)[6..] == Normal(text[6..]);
      } else {
        NormalKeepsJumps(text[1..]);
        assert Normal(text)[1..] == Normal(text[1..]);
        HeadKept(text[1..]);
      }
    }
  }

  lemma HeadKept(text: seq<U8>)
    requires text != []
    ensures Normal(text) != [] && Normal(text)[0] == text[0]
  {
  }

  lemma Idempotent(text: seq<U8>)
    ensures Normal(Normal(text)) == Normal(text)
  {
    NormalAt(text);
    NormalKeepsJumps(text);
    NormalAt(Normal(text));
  }

  /** Two texts agree after blanking exactly when they have the same jumps and differ
      only in displacements. */
  lemma {:induction false} SameNormal(a: seq<U8>, b: seq<U8>)
    ensures Normal(a) == Normal(b) <==>
            && |a| == |b| && Jumps(a) == Jumps(b)
            && forall i :: 0 <= i < |a| && !Blank(Jumps(a), i) ==> a[i] == b[i]
  {
    NormalAt(a);
    NormalAt(b);
    NormalKeepsJumps(a);
    NormalKeepsJumps(b);
    if Normal(a) == Normal(b) {
      forall i | 0 <= i < |a| && !Blank(Jumps(a), i) ensures a[i] == b[i] {
        assert Normal(a)[i] == Normal(b)[i];
      }
    }
  }

  lemma NormalStep(text: seq<U8>, index: nat, done: seq<U8>)
    requires index + 5 < |text|
    ensures done + Normal(text[index..]) ==
            if text[index] == 0x0f && 0x80 <= text[index + 1] <= 0x8f
            then done + text[index..index + 2] + [0, 0, 0, 0] + Normal(text[index + 6..])
            else done + [text[index]] + Normal(text[index + 1..])
  {
    var rest := text[index..];
    assert rest[1..] == text[index + 1..] && rest[6..] == text[index + 6..] && rest[..2] == text[index..index + 2];
    assert text[index] == rest[0] && text[index + 1] == rest[1];
  }

  lemma NormalShort(text: seq<U8>)
    requires |text| < 6
    ensures Normal(text) == text
  {
  }

  /** `normalise_near_conditional_displacements`, in place on a copy. */
  method NormaliseDisplacements(text: seq<U8>) returns (normal: seq<U8>)
    ensures normal == Normal(text)
  {
    hide Normal;
    var result := new U8[|text|](i requires 0 <= i < |text| => text[i]);
    var index := 0;
    while index + 5 < result.Length
      invariant 0 <= index <= |text| == result.Length
      invariant result[index..] == text[index..]
      invariant result[..index] + Normal(text[index..]) == Normal(text)
    {
      ghost var done := result[..index];
      NormalStep(text, index, done);
      if result[index] == 0x0f && 0x80 <= result[index + 1] <= 0x8f {
        assert text[index..][6..] == text[index + 6..];
        result[index + 2], result[index + 3], result[index + 4], result[index + 5] := 0, 0, 0, 0;
        assert result[index..][6..] == result[index + 6..];
        assert result[..index + 6] == done + text[index..index + 2] + [0, 0, 0, 0];
        index := index + 6;
      } else {
        assert result[..index + 1] == done + [text[index]];
        index := index + 1;
      }
    }
    NormalShort(text[index..]);
    assert result[..] == result[..index] + result[index..];
    normal := result[..];
  }

  // ---------------------------------------------------------------- one declared replacement

  predicate OccursAt(text: seq<U8>, old_: seq<U8>, i: nat) {
    i + |old_| <= |text| && text[i..i + |old_|] == old_
  }

  /** Occurrences counted from the left without overlaps. */
  function Count(text: seq<U8>, old_: seq<U8>): nat
    requires old_ != []
  {
    if |text| < |old_| then 0
    else if OccursAt(text, old_, 0) then 1 + Count(text[|old_|..], old_)
    else Count(text[1..], old_)
  }

  function ReplaceFirst(text: seq<U8>, old_: seq<U8>, new_: seq<U8>): seq<U8>
    requires old_ != []
  {
    if |text| < |old_| then text
    else if OccursAt(text, old_, 0) then new_ + text[|old_|..]
    else [text[0]] + ReplaceFirst(text[1..], old_, new_)
  }

  /** `replace_exactly_once`; None for the exception. */
  function ReplaceExactlyOnce(text: seq<U8>, old_: seq<U8>, new_: seq<U8>): Option<seq<U8>>
    requires old_ != []
  {
    if Count(text, old_) != 1 then None else Some(ReplaceFirst(text, old_, new_))
  }

  /** No proper suffix of the string is one of its prefixes. */
  predicate SelfOverlapFree(s: seq<U8>) {
    forall k :: 0 < k < |s| ==> s[k..] != s[..|s| - k]
  }

  /** Two overlapping occurrences show how the string overlaps itself. */
  lemma OverlapMakesBorder(text: seq<U8>, old_: seq<U8>, i: nat, j: nat)
    requires OccursAt(text, old_, i) && OccursAt(text, old_, j) && i < j < i + |old_|
    ensures old_[j - i..] == old_[..|old_| - (j - i)]
  {
    var k := j - i;
    assert old_[k..] == text[i..i + |old_|][k..] == text[j..i + |old_|];
    assert old_[..|old_| - k] == text[j..j + |old_|][..|old_| - k] == text[j..i + |old_|];
  }

  lemma OccursShift(text: seq<U8>, old_: seq<U8>, n: nat, i: nat)
    requires n <= i && n <= |text|
    ensures OccursAt(text, old_, i) <==> OccursAt(text[n..], old_, i - n)
  {
    if i + |old_| <= |text| {
      assert text[i..i + |old_|] == text[n..][i - n..i - n + |old_|];
    }
  }

  /** A text without occurrences counts none. */
  lemma {:induction false} CountNone(text: seq<U8>, old_: seq<U8>)
    requires old_ != [] && forall j: nat :: !OccursAt(text, old_, j)
    ensures Count(text, old_) == 0
  {
    if |text| >= |old_| {
      forall j: nat ensures !OccursAt(text[1..], old_, j) {
        hide OccursAt;
        OccursShift(text, old_, 1, j + 1);
      }
      CountNone(text[1..], old_);
    }
  }

  lemma CountHere(text: seq<U8>, old_: seq<U8>, new_: seq<U8>)
    requires old_ != [] && OccursAt(text, old_, 0)
    ensures Count(text, old_) == 1 + Count(text[|old_|..], old_)
    ensures ReplaceFirst(text, old_, new_) == new_ + text[|old_|..]
  {
  }

  lemma CountSkip(text: seq<U8>, old_: seq<U8>, new_: seq<U8>)
    requires old_ != [] && |old_| <= |text| && !OccursAt(text, old_, 0)
    ensures Count(text, old_) == Count(text[1..], old_)
    ensures ReplaceFirst(text, old_, new_) == [text[0]] + ReplaceFirst(text[1..], old_, new_)
  {
  }

  lemma OccursFits(text: seq<U8>, old_: seq<U8>, i: nat)
    requires OccursAt(text, old_, i)
    ensures i + |old_| <= |text|
  {
  }

  /** At the first occurrence the count goes on behind it and the replacement is made. */
  lemma {:induction false} CountFirst(text: seq<U8>, old_: seq<U8>, new_: seq<U8>, i: nat)
    requires old_ != [] && OccursAt(text, old_, i) && forall j: nat :: j < i ==> !OccursAt(text, old_, j)
    ensures i + |old_| <= |text|
    ensures Count(text, old_) == 1 + Count(text[i + |old_|..], old_)
    ensures ReplaceFirst(text, old_, new_) == text[..i] + new_ + text[i + |old_|..]
    decreases i
  {
    hide OccursAt, Count, ReplaceFirst;
    OccursFits(text, old_, i);
    if i == 0 {
      CountHere(text, old_, new_);
    } else {
      forall j: nat | j < i - 1 ensures !OccursAt(text[1..], old_, j) {
        OccursShift(text, old_, 1, j + 1);
      }
      OccursShift(text, old_, 1, i);
      CountFirst(text[1..], old_, new_, i - 1);
      CountSkip(text, old_, new_);
      assert text[1..][i - 1 + |old_|..] == text[i + |old_|..];
      assert [text[0]] + text[1..][..i - 1] == text[..i];
    }
  }

  /** The first occurrence is at i, and none begins at or behind its end; for a string
      that overlaps itself others may begin inside it. */
  ghost predicate OnceFrom(text: seq<U8>, old_: seq<U8>, i: nat) {
    && OccursAt(text, old_, i)
    && (forall j: nat :: j < i ==> !OccursAt(text, old_, j))
    && (forall j: nat :: j >= i + |old_| ==> !OccursAt(text, old_, j))
  }

  ghost predicate OnlyAt(text: seq<U8>, old_: seq<U8>, i: nat) {
    OccursAt(text, old_, i) && forall j: nat :: j != i ==> !OccursAt(text, old_, j)
  }

  /** For every string the replacement succeeds exactly when some occurrence is the
      first one and no other begins behind it, and then it is made there. */
  lemma ReplacedExactly(text: seq<U8>, old_: seq<U8>, new_: seq<U8>)
    requires old_ != []
    ensures ReplaceExactlyOnce(text, old_, new_).Some? <==> exists i: nat :: OnceFrom(text, old_, i)
    ensures forall i: nat :: OnceFrom(text, old_, i) ==>
              ReplaceExactlyOnce(text, old_, new_) == Some(text[..i] + new_ + text[i + |old_|..])
  {
    hide OccursAt, Count, ReplaceFirst;
    if i: nat :| OccursAt(text, old_, i) {
      var first := LeastOccurrence(text, old_, i);
      CountFirst(text, old_, new_, first);
      assert forall j: nat :: OnceFrom(text, old_, j) ==> j == first;
      BehindFirst(text, old_, new_, first);
      assert OnceFrom(text, old_, first) <==> Count(text[first + |old_|..], old_) == 0;
    } else {
      CountNone(text, old_);
    }
  }

  /** What is left behind position `first` counts none exactly if no occurrence begins there. */
  lemma BehindFirst(text: seq<U8>, old_: seq<U8>, new_: seq<U8>, first: nat)
    requires old_ != [] && first + |old_| <= |text|
    ensures Count(text[first + |old_|..], old_) == 0 <==>
            forall j: nat :: j >= first + |old_| ==> !OccursAt(text, old_, j)
  {
    hide OccursAt, Count, ReplaceFirst;
    var n := first + |old_|;
    var rest := text[n..];
    if second: nat :| OccursAt(rest, old_, second) {
      var next := LeastOccurrence(rest, old_, second);
      CountFirst(rest, old_, new_, next);
      OccursShift(text, old_, n, n + next);
    } else {
      CountNone(rest, old_);
      forall j: nat | j >= n ensures !OccursAt(text, old_, j) {
        OccursShift(text, old_, n, j);
      }
    }
  }

  /** For a string that cannot overlap itself that is the only occurrence at all. */
  lemma OnceIsOnly(text: seq<U8>, old_: seq<U8>, i: nat)
    requires old_ != [] && SelfOverlapFree(old_)
    ensures OnceFrom(text, old_, i) <==> OnlyAt(text, old_, i)
  {
    hide OccursAt;
    if OnceFrom(text, old_, i) {
      forall j: nat | j != i ensures !OccursAt(text, old_, j) {
        if OccursAt(text, old_, j) && i < j < i + |old_| {
          OverlapMakesBorder(text, old_, i, j);
        }
      }
    }
  }

  lemma {:induction false} LeastOccurrence(text: seq<U8>, old_: seq<U8>, i: nat) returns (first: nat)
    requires OccursAt(text, old_, i)
    ensures first <= i && OccursAt(text, old_, first) && forall j: nat :: j < first ==> !OccursAt(text, old_, j)
  {
    if j: nat :| j < i && OccursAt(text, old_, j) {
      first := LeastOccurrence(text, old_, j);
    } else {
      first := i;
    }
  }

  // ---------------------------------------------------------------- the guard

  datatype Verdict = Passed | Failed | Raised

  function Guard(baseline: seq<U8>, candidate: seq<U8>): Verdict {
    match ReplaceExactlyOnce(Normal(baseline), OLD_SETUP, NEW_SETUP)
    case None => Raised
    case Some(expected) => if Normal(candidate) == expected then Passed else Failed
  }

  lemma SetupOverlapFree()
    ensures SelfOverlapFree(OLD_SETUP)
  {
    forall k | 0 < k < |OLD_SETUP| ensures OLD_SETUP[k..] != OLD_SETUP[..|OLD_SETUP| - k] {
      assert OLD_SETUP[k..][0] == OLD_SETUP[k];
      assert OLD_SETUP[..|OLD_SETUP| - k][0] == 0x48;
      if k == 6 {
        assert OLD_SETUP[k..][1] == 0xc7 && OLD_SETUP[..|OLD_SETUP| - k][1] == 0x89;
      }
    }
  }

  /** The guard passes exactly when the baseline's blanked text has the setup at one
      place and the candidate's blanked text is it with the window put there. */
  lemma GuardPasses(baseline: seq<U8>, candidate: seq<U8>)
    ensures Guard(baseline, candidate) == Passed <==>
            Replaced(Normal(baseline), Normal(candidate), OLD_SETUP, NEW_SETUP)
    ensures Guard(baseline, candidate) == Raised <==> !OccursOnce(Normal(baseline), OLD_SETUP)
  {
    hide Normal, ReplaceExactlyOnce, Replaced, OccursOnce, SelfOverlapFree;
    SetupOverlapFree();
    GuardDecides(Normal(baseline), Normal(candidate), OLD_SETUP, NEW_SETUP);
  }

  lemma GuardDecides(text: seq<U8>, other: seq<U8>, old_: seq<U8>, new_: seq<U8>)
    requires old_ != [] && SelfOverlapFree(old_)
    ensures ReplaceExactlyOnce(text, old_, new_) == Some(other) <==> Replaced(text, other, old_, new_)
    ensures ReplaceExactlyOnce(text, old_, new_) == None <==> !OccursOnce(text, old_)
  {
    hide OnlyAt, OnceFrom, ReplaceExactlyOnce, SelfOverlapFree;
    ReplacedExactly(text, old_, new_);
    forall i: nat ensures OnceFrom(text, old_, i) <==> OnlyAt(text, old_, i) {
      OnceIsOnly(text, old_, i);
    }
    if i: nat :| OnceFrom(text, old_, i) {
      OnlyFits(text, old_, i);
      assert Placed(text, other, old_, new_, i) <==> ReplaceExactlyOnce(text, old_, new_) == Some(other);
      forall j: nat | Placed(text, other, old_, new_, j) ensures ReplaceExactlyOnce(text, old_, new_) == Some(other) {
        assert OnceFrom(text, old_, j);
      }
    }
  }

  lemma OnlyFits(text: seq<U8>, old_: seq<U8>, i: nat)
    requires OnlyAt(text, old_, i)
    ensures i + |old_| <= |text|
  {
  }

  ghost predicate OccursOnce(text: seq<U8>, old_: seq<U8>) {
    exists i: nat :: OnlyAt(text, old_, i)
  }

  /** The old string occurs at one place, and the other text is this one with the new
      string there. */
  ghost predicate Replaced(text: seq<U8>, other: seq<U8>, old_: seq<U8>, new_: seq<U8>) {
    exists i: nat :: Placed(text, other, old_, new_, i)
  }

  /** The old string occurs at i only, and the other text is this one with the new
      string in its place. */
  ghost predicate Placed(text: seq<U8>, other: seq<U8>, old_: seq<U8>, new_: seq<U8>, i: nat) {
    && OnlyAt(text, old_, i)
    && i + |old_| <= |text|
    && other == text[..i] + new_ + text[i + |old_|..]
  }
}
