/** The animator's key frames: which track of a property decides its value at a
    frame, and why the order of the list does not matter. */
module KeyFrames {

  const SIZE_MAX: nat := 0xFFFF_FFFF_FFFF_FFFF

  /** The property data of one track: frame offsets with their values, and how to
      interpolate between them. */
  datatype Track = Track(filterId: nat, key: nat, frames: seq<(nat, string)>, mode: nat)

  predicate Matches(t: Track, filterId: nat, key: nat) {
    t.filterId == filterId && t.key == key
  }

  // ---- The range of a track ----

  function MinFrame(s: seq<(nat, string)>): (m: nat)
    ensures forall x :: x in s ==> m <= x.0
    ensures m == SIZE_MAX || exists x :: x in s && x.0 == m
  {
    if s == [] then SIZE_MAX else
    var rest := MinFrame(s[..|s| - 1]);
    assert s == s[..|s| - 1] + [s[|s| - 1]];
    assert s[|s| - 1] in s;
    if rest < s[|s| - 1].0 then rest else s[|s| - 1].0
  }

  function MaxFrame(s: seq<(nat, string)>): (m: nat)
    ensures forall x :: x in s ==> x.0 <= m
    ensures m == 0 || exists x :: x in s && x.0 == m
  {
    if s == [] then 0 else
    var rest := MaxFrame(s[..|s| - 1]);
    assert s == s[..|s| - 1] + [s[|s| - 1]];
    assert s[|s| - 1] in s;
    if s[|s| - 1].0 < rest then rest else s[|s| - 1].0
  }

  method GetMinFrame(t: Track) returns (m: nat)
    ensures m == MinFrame(t.frames)
  {
    m := SIZE_MAX;
    for ui := 0 to |t.frames|
      invariant m == MinFrame(t.frames[..ui])
    {
      assert t.frames[..ui + 1][..ui] == t.frames[..ui];
      if t.frames[ui].0 <= m { m := t.frames[ui].0; }
    }
    assert t.frames[..|t.frames|] == t.frames;
  }

  method GetMaxFrame(t: Track) returns (m: nat)
    ensures m == MaxFrame(t.frames)
  {
    m := 0;
    for ui := 0 to |t.frames|
      invariant m == MaxFrame(t.frames[..ui])
    {
      assert t.frames[..ui + 1][..ui] == t.frames[..ui];
      if t.frames[ui].0 >= m { m := t.frames[ui].0; }
    }
    assert t.frames[..|t.frames|] == t.frames;
  }

  function First(t: Track): nat { MinFrame(t.frames) }

  function Last(t: Track): nat { MaxFrame(t.frames) }

  predicate Active(t: Track, frame: nat) {
    First(t) <= frame <= Last(t)
  }

  lemma RangeIsOrdered(t: Track)
    requires t.frames != []
    ensures First(t) <= Last(t)
  {
    assert t.frames[0] in t.frames;
  }

  // ---- Conflicts ----

  predicate RangesOverlap(minA: nat, maxA: nat, minB: nat, maxB: nat) {
    if (minA <= minB && maxA >= minB) || (minA <= maxB && maxA >= maxB) then true
    else (minB <= minA && maxB >= minA) || (minB <= maxA && maxB >= maxA)
  }

  /** Two ranges overlap exactly when they share a frame. */
  lemma OverlapIsSharedFrame(a: Track, b: Track)
    requires a.frames != [] && b.frames != []
    ensures RangesOverlap(First(a), Last(a), First(b), Last(b))
        <==> exists frame :: Active(a, frame) && Active(b, frame)
  {
    RangeIsOrdered(a);
    RangeIsOrdered(b);
    var start := if First(a) <= First(b) then First(b) else First(a);
    if RangesOverlap(First(a), Last(a), First(b), Last(b)) {
      assert Active(a, start) && Active(b, start);
    }
  }

  predicate Conflict(a: Track, b: Track) {
    && Matches(a, b.filterId, b.key)
    && RangesOverlap(First(a), Last(a), First(b), Last(b))
  }

  ghost predicate Conflicting(tracks: seq<Track>, i: nat) {
    i < |tracks| && exists j: nat :: j < |tracks| && j != i && Conflict(tracks[i], tracks[j])
  }

  /** No two tracks of the list control the same property in the same frame. */
  ghost predicate SelfConsistent(tracks: seq<Track>) {
    forall i: nat, j: nat :: i < j < |tracks| ==> !Conflict(tracks[i], tracks[j])
  }

  lemma ConflictIsSymmetric(a: Track, b: Track)
    ensures Conflict(a, b) == Conflict(b, a)
  {
  }

  /** The pairs (i, j) that the scan has met before it looks at the pair (ui, uj). */
  predicate Scanned(ui: nat, uj: nat, i: nat, j: nat) {
    i < j && (i < ui || (i == ui && j < uj))
  }

  ghost predicate FoundSoFar(tracks: seq<Track>, ui: nat, uj: nat, k: nat) {
    exists i: nat, j: nat :: Scanned(ui, uj, i, j) && j < |tracks|
                             && Conflict(tracks[i], tracks[j]) && (k == i || k == j)
  }

  /** Adds the positions of all the tracks that conflict with another, and tells
      whether the set of positions is still empty. */
  method CheckSelfConsistent(tracks: seq<Track>, known: set<nat>) returns (ok: bool, conflictFrames: set<nat>)
    ensures forall k :: k in conflictFrames <==> k in known || Conflicting(tracks, k)
    ensures ok <==> known == {} && SelfConsistent(tracks)
  {
    hide *;
    conflictFrames := known;
    NoneScanned(tracks);
    for ui := 0 to |tracks|
      invariant forall k :: k in conflictFrames <==> k in known || FoundSoFar(tracks, ui, ui + 1, k)
    {
      for uj := ui + 1 to |tracks|
        invariant forall k :: k in conflictFrames <==> k in known || FoundSoFar(tracks, ui, uj, k)
      {
        FoundNext(tracks, ui, uj);
        ConflictIs(tracks[ui], tracks[uj]);
        if tracks[ui].key == tracks[uj].key && tracks[ui].filterId == tracks[uj].filterId {
          var minA := GetMinFrame(tracks[ui]);
          var minB := GetMinFrame(tracks[uj]);
          var maxA := GetMaxFrame(tracks[ui]);
          var maxB := GetMaxFrame(tracks[uj]);
          if RangesOverlap(minA, maxA, minB, maxB) {
            conflictFrames := conflictFrames + {ui, uj};
          }
        }
      }
      RowDone(tracks, ui);
    }
    AllScanned(tracks);
    ConsistentIffNoConflicting(tracks);
    ok := conflictFrames == {};
  }

  lemma ConsistentIffNoConflicting(tracks: seq<Track>)
    ensures SelfConsistent(tracks) <==> forall k: nat :: !Conflicting(tracks, k)
  {
    if !SelfConsistent(tracks) {
      var i: nat, j: nat :| i < j < |tracks| && Conflict(tracks[i], tracks[j]);
      assert Conflicting(tracks, i);
    }
    forall k: nat | SelfConsistent(tracks) && Conflicting(tracks, k) ensures false {
      var j: nat :| j < |tracks| && j != k && Conflict(tracks[k], tracks[j]);
      ConflictIsSymmetric(tracks[k], tracks[j]);
    }
  }

  lemma ConflictIs(a: Track, b: Track)
    ensures Conflict(a, b) == (a.filterId == b.filterId && a.key == b.key && RangesOverlap(
              MinFrame(a.frames), MaxFrame(a.frames), MinFrame(b.frames), MaxFrame(b.frames)))
  {
  }

  lemma NoneScanned(tracks: seq<Track>)
    ensures forall k: nat :: !FoundSoFar(tracks, 0, 1, k)
  {
  }

  lemma FoundNext(tracks: seq<Track>, ui: nat, uj: nat)
    requires ui < uj < |tracks|
    ensures forall k: nat :: FoundSoFar(tracks, ui, uj + 1, k) <==>
              FoundSoFar(tracks, ui, uj, k) || (Conflict(tracks[ui], tracks[uj]) && (k == ui || k == uj))
  {
    hide *;
    forall k: nat
      ensures FoundSoFar(tracks, ui, uj + 1, k) <==>
                FoundSoFar(tracks, ui, uj, k) || (Conflict(tracks[ui], tracks[uj]) && (k == ui || k == uj))
    {
      FoundNextAt(tracks, ui, uj, k);
    }
  }

  lemma FoundNextAt(tracks: seq<Track>, ui: nat, uj: nat, k: nat)
    requires ui < uj < |tracks|
    ensures FoundSoFar(tracks, ui, uj + 1, k) <==>
              FoundSoFar(tracks, ui, uj, k) || (Conflict(tracks[ui], tracks[uj]) && (k == ui || k == uj))
  {
    hide Conflict;
    if FoundSoFar(tracks, ui, uj, k) {
      var i: nat, j: nat :| Scanned(ui, uj, i, j) && j < |tracks|
                            && Conflict(tracks[i], tracks[j]) && (k == i || k == j);
      assert Scanned(ui, uj + 1, i, j);
    } else if FoundSoFar(tracks, ui, uj + 1, k) {
      var i: nat, j: nat :| Scanned(ui, uj + 1, i, j) && j < |tracks|
                            && Conflict(tracks[i], tracks[j]) && (k == i || k == j);
      assert !Scanned(ui, uj, i, j);
    } else {
      assert Scanned(ui, uj + 1, ui, uj);
    }
  }

  lemma RowDone(tracks: seq<Track>, ui: nat)
    requires ui < |tracks|
    ensures forall k: nat :: FoundSoFar(tracks, ui, |tracks|, k) <==> FoundSoFar(tracks, ui + 1, ui + 2, k)
  {
    forall i: nat, j: nat | j < |tracks|
      ensures Scanned(ui, |tracks|, i, j) <==> Scanned(ui + 1, ui + 2, i, j)
    {
    }
  }

  lemma AllScanned(tracks: seq<Track>)
    ensures forall k: nat :: FoundSoFar(tracks, |tracks|, |tracks| + 1, k) <==> Conflicting(tracks, k)
  {
    forall k: nat | Conflicting(tracks, k) ensures FoundSoFar(tracks, |tracks|, |tracks| + 1, k) {
      var j: nat :| j < |tracks| && j != k && Conflict(tracks[k], tracks[j]);
      ConflictIsSymmetric(tracks[k], tracks[j]);
      assert Scanned(|tracks|, |tracks| + 1, if k < j then k else j, if k < j then j else k);
    }
    forall k: nat | FoundSoFar(tracks, |tracks|, |tracks| + 1, k) ensures Conflicting(tracks, k) {
      var i: nat, j: nat :| Scanned(|tracks|, |tracks| + 1, i, j) && j < |tracks|
                            && Conflict(tracks[i], tracks[j]) && (k == i || k == j);
      ConflictIsSymmetric(tracks[i], tracks[j]);
    }
  }

  // ---- The value at a frame ----

  /** What a property shows at a frame: nothing yet, or a track's value at a frame. */
  datatype Shown = Nothing | At(track: Track, at: nat)

  /** What the animator promises to show, said without the order of the list. */
  ghost predicate Shows(tracks: seq<Track>, filterId: nat, key: nat, frame: nat, r: Shown) {
    match r
    case Nothing =>
      forall t :: t in tracks && Matches(t, filterId, key) ==> frame < First(t) && frame < Last(t)
    case At(t, at) =>
      && t in tracks && Matches(t, filterId, key)
      && if Active(t, frame) then at == frame else
           && at == Last(t) <= frame
           && forall u :: u in tracks && Matches(u, filterId, key) ==>
                !Active(u, frame) && (Last(u) <= frame ==> Last(u) <= Last(t))
  }

  function Sorted(s: seq<(nat, nat)>): (r: seq<(nat, nat)>)
    ensures |r| == |s| && forall x :: x in r <==> x in s
    ensures forall i, j :: 0 <= i < j < |r| ==> r[i].1 <= r[j].1
  {
    if s == [] then [] else
    assert s == s[..|s| - 1] + [s[|s| - 1]];
    Inserted(Sorted(s[..|s| - 1]), s[|s| - 1])
  }

  function Inserted(s: seq<(nat, nat)>, x: (nat, nat)): (r: seq<(nat, nat)>)
    requires forall i, j :: 0 <= i < j < |s| ==> s[i].1 <= s[j].1
    ensures |r| == |s| + 1 && forall y :: y in r <==> y in s || y == x
    ensures forall i, j :: 0 <= i < j < |r| ==> r[i].1 <= r[j].1
  {
    if s == [] || s[|s| - 1].1 <= x.1 then s + [x] else
    assert s == s[..|s| - 1] + [s[|s| - 1]];
    var front := Inserted(s[..|s| - 1], x);
    assert forall y :: y in s[..|s| - 1] || y == x ==> y.1 <= s[|s| - 1].1;
    assert forall i :: 0 <= i < |front| ==> front[i] in front && front[i].1 <= s[|s| - 1].1;
    front + [s[|s| - 1]]
  }

  function Text(r: Shown, interp: (Track, nat) -> string): string {
    if r.Nothing? then "" else interp(r.track, r.at)
  }

  lemma TextIs(interp: (Track, nat) -> string)
    ensures Text(Nothing, interp) == "" && forall t, at :: Text(At(t, at), interp) == interp(t, at)
  {
  }

  lemma MatchesIs(t: Track, filterId: nat, key: nat, frame: nat)
    ensures Matches(t, filterId, key) <==> t.filterId == filterId && t.key == key
    ensures Active(t, frame) <==> MinFrame(t.frames) <= frame <= MaxFrame(t.frames)
  {
  }

  lemma NoMatch(tracks: seq<Track>, filterId: nat, key: nat, frame: nat)
    requires forall k :: 0 <= k < |tracks| ==> !Matches(tracks[k], filterId, key)
    ensures Shows(tracks, filterId, key, frame, Nothing)
  {
  }

  lemma NothingShown(tracks: seq<Track>, filterId: nat, key: nat, frame: nat)
    requires forall k :: 0 <= k < |tracks| ==> !(Matches(tracks[k], filterId, key) && Active(tracks[k], frame))
    requires forall k :: 0 <= k < |tracks| && Matches(tracks[k], filterId, key) ==> frame < MaxFrame(tracks[k].frames)
    ensures Shows(tracks, filterId, key, frame, Nothing)
  {
  }

  lemma ActiveShown(tracks: seq<Track>, filterId: nat, key: nat, frame: nat, k: nat)
    requires k < |tracks| && Matches(tracks[k], filterId, key) && Active(tracks[k], frame)
    ensures Shows(tracks, filterId, key, frame, At(tracks[k], frame))
  {
  }

  lemma HeldShown(tracks: seq<Track>, filterId: nat, key: nat, frame: nat, k: nat)
    requires forall i :: 0 <= i < |tracks| ==> !(Matches(tracks[i], filterId, key) && Active(tracks[i], frame))
    requires k < |tracks| && Matches(tracks[k], filterId, key) && MaxFrame(tracks[k].frames) <= frame
    requires forall i: nat :: i < |tracks| && Matches(tracks[i], filterId, key) && MaxFrame(tracks[i].frames) <= frame
                       ==> MaxFrame(tracks[i].frames) <= MaxFrame(tracks[k].frames)
    ensures Shows(tracks, filterId, key, frame, At(tracks[k], MaxFrame(tracks[k].frames)))
  {
  }

  /** The position of the first matching track, or the length of the list. */
  method FirstMatch(tracks: seq<Track>, filterId: nat, key: nat) returns (id: nat)
    ensures id <= |tracks|
    ensures id == |tracks| ==> forall k :: 0 <= k < |tracks| ==> !Matches(tracks[k], filterId, key)
  {
    for ui := 0 to |tracks|
      invariant forall k :: 0 <= k < ui ==> !Matches(tracks[k], filterId, key)
    {
      if filterId == tracks[ui].filterId && key == tracks[ui].key {
        return ui;
      }
    }
    return |tracks|;
  }

  /** The position of the first matching track that is active, or the length of the list. */
  method FirstActive(tracks: seq<Track>, filterId: nat, key: nat, frame: nat) returns (id: nat)
    ensures id <= |tracks|
    ensures id < |tracks| ==> Matches(tracks[id], filterId, key) && Active(tracks[id], frame)
    ensures id == |tracks| ==>
      forall k :: 0 <= k < |tracks| ==> !(Matches(tracks[k], filterId, key) && Active(tracks[k], frame))
  {
    for ui := 0 to |tracks|
      invariant forall k :: 0 <= k < ui ==> !(Matches(tracks[k], filterId, key) && Active(tracks[k], frame))
    {
      if filterId == tracks[ui].filterId && key == tracks[ui].key {
        var lo := GetMinFrame(tracks[ui]);
        var hi := GetMaxFrame(tracks[ui]);
        if lo <= frame <= hi {
          return ui;
        }
      }
    }
    return |tracks|;
  }

  /** The matching tracks that have ended, with their last frames. */
  method EndedTracks(tracks: seq<Track>, filterId: nat, key: nat, frame: nat) returns (seenFrames: seq<(nat, nat)>)
    ensures forall x :: x in seenFrames ==>
      x.0 < |tracks| && Matches(tracks[x.0], filterId, key) && MaxFrame(tracks[x.0].frames) == x.1 <= frame
    ensures forall k: nat :: k < |tracks| && Matches(tracks[k], filterId, key) && MaxFrame(tracks[k].frames) <= frame ==>
      (k, MaxFrame(tracks[k].frames)) in seenFrames
  {
    hide *;
    seenFrames := [];
    for ui := 0 to |tracks|
      invariant forall x :: x in seenFrames ==>
        x.0 < ui && Matches(tracks[x.0], filterId, key) && MaxFrame(tracks[x.0].frames) == x.1 <= frame
      invariant forall k: nat :: k < ui && Matches(tracks[k], filterId, key) && MaxFrame(tracks[k].frames) <= frame ==>
        (k, MaxFrame(tracks[k].frames)) in seenFrames
    {
      MatchesIs(tracks[ui], filterId, key, frame);
      if filterId == tracks[ui].filterId && key == tracks[ui].key {
        var hi := GetMaxFrame(tracks[ui]);
        if hi <= frame {
          seenFrames := seenFrames + [(ui, hi)];
        }
      }
    }
  }

  /** Finds a matching track; then the first active one; and when there is none,
      the last in the order of their last frames of those that have ended. */
  method GetInterpolatedFilterData(tracks: seq<Track>, filterId: nat, key: nat, frame: nat,
                                   interp: (Track, nat) -> string)
    returns (text: string)
    ensures exists shown :: Shows(tracks, filterId, key, frame, shown) && text == Text(shown, interp)
  {
    hide *;
    TextIs(interp);
    var modifyingId := FirstMatch(tracks, filterId, key);
    if modifyingId == |tracks| {
      NoMatch(tracks, filterId, key, frame);
      return "";
    }
    var at := frame;
    var keyFrameId := FirstActive(tracks, filterId, key, frame);
    if keyFrameId < |tracks| {
      ActiveShown(tracks, filterId, key, frame, keyFrameId);
    } else {
      var seenFrames := EndedTracks(tracks, filterId, key, frame);
      if |seenFrames| == 0 {
        NothingShown(tracks, filterId, key, frame);
        return "";
      }
      var sorted := Sorted(seenFrames);
      var back := sorted[|sorted| - 1];
      assert back in seenFrames;
      keyFrameId, at := back.0, back.1;
      forall k: nat | k < |tracks| && Matches(tracks[k], filterId, key) && MaxFrame(tracks[k].frames) <= frame
        ensures MaxFrame(tracks[k].frames) <= at
      {
        assert (k, MaxFrame(tracks[k].frames)) in sorted;
      }
      HeldShown(tracks, filterId, key, frame, keyFrameId);
    }
    text := interp(tracks[keyFrameId], at);
    assert text == Text(At(tracks[keyFrameId], at), interp);
  }

  /** Tracks of one property that share a frame are the same track. */
  lemma SharedFrameSameTrack(tracks: seq<Track>, a: Track, b: Track, frame: nat)
    requires SelfConsistent(tracks)
    requires a in tracks && b in tracks && Matches(a, b.filterId, b.key)
    requires Active(a, frame) && Active(b, frame)
    ensures a == b
  {
    var i: nat :| i < |tracks| && tracks[i] == a;
    var j: nat :| j < |tracks| && tracks[j] == b;
    OverlapIsSharedFrame(a, b);
    ConflictIsSymmetric(a, b);
  }

  // ---- Tracks without frames ----

  ghost predicate HasEmpty(tracks: seq<Track>, filterId: nat, key: nat) {
    exists t :: t in tracks && Matches(t, filterId, key) && t.frames == []
  }

  /** Every matching track starts later. A track without frames starts at the
      greatest number. */
  ghost predicate StartsLater(tracks: seq<Track>, filterId: nat, key: nat, frame: nat) {
    forall t :: t in tracks && Matches(t, filterId, key) ==> frame < First(t)
  }

  /** Every matching track that has frames starts later. */
  ghost predicate OthersLater(tracks: seq<Track>, filterId: nat, key: nat, frame: nat) {
    forall t :: t in tracks && Matches(t, filterId, key) && t.frames != [] ==> frame < First(t)
  }

  /** Two different tracks without frames are all that can be shown. */
  ghost predicate Ambiguous(tracks: seq<Track>, filterId: nat, key: nat, frame: nat) {
    && OthersLater(tracks, filterId, key, frame)
    && exists a, b :: a in tracks && b in tracks && Matches(a, filterId, key) && Matches(b, filterId, key)
                      && a.frames == [] && b.frames == [] && a != b
  }

  lemma RangeOf(t: Track)
    ensures t.frames != [] ==> First(t) <= Last(t)
    ensures t.frames == [] ==> First(t) == SIZE_MAX && Last(t) == 0
  {
    if t.frames != [] { RangeIsOrdered(t); }
  }

  /** Nothing is shown exactly when every matching track has frames and starts later. */
  lemma NothingExactly(tracks: seq<Track>, filterId: nat, key: nat, frame: nat, r: Shown)
    requires Shows(tracks, filterId, key, frame, r)
    ensures r.Nothing? <==> OthersLater(tracks, filterId, key, frame) && !HasEmpty(tracks, filterId, key)
    ensures r.At? ==> (Active(r.track, r.at) <==> r.track.frames != [])
  {
    if r.At? { RangeOf(r.track); }
    if t :| t in tracks && Matches(t, filterId, key) && t.frames == [] { RangeOf(t); }
  }

  /** That nothing is shown exactly when every matching track starts later holds
      unless a matching track has no frames while all the others start later. */
  lemma NothingExactlyBeforeStart(tracks: seq<Track>, filterId: nat, key: nat, frame: nat, r: Shown)
    requires Shows(tracks, filterId, key, frame, r)
    ensures (r.Nothing? <==> StartsLater(tracks, filterId, key, frame)) <==>
            !(frame < SIZE_MAX && HasEmpty(tracks, filterId, key) && OthersLater(tracks, filterId, key, frame))
  {
    NothingExactly(tracks, filterId, key, frame, r);
    if t :| t in tracks && Matches(t, filterId, key) && t.frames == [] { RangeOf(t); }
  }

  /** In that case the code holds a track without frames, at frame 0. */
  lemma EmptyTrackIsHeld(tracks: seq<Track>, filterId: nat, key: nat, frame: nat, r: Shown)
    requires Shows(tracks, filterId, key, frame, r)
    requires HasEmpty(tracks, filterId, key) && OthersLater(tracks, filterId, key, frame)
    ensures r.At? && r.track.frames == [] && r.at == 0
  {
    NothingExactly(tracks, filterId, key, frame, r);
    RangeOf(r.track);
  }

  /** On a self-consistent list only two tracks without frames can contend. */
  lemma ShownIsUnique(tracks: seq<Track>, filterId: nat, key: nat, frame: nat, r: Shown, s: Shown)
    requires SelfConsistent(tracks) && !Ambiguous(tracks, filterId, key, frame)
    requires Shows(tracks, filterId, key, frame, r) && Shows(tracks, filterId, key, frame, s)
    ensures r == s
  {
    NothingExactly(tracks, filterId, key, frame, r);
    NothingExactly(tracks, filterId, key, frame, s);
    if r.At? && s.At? {
      RangeOf(r.track);
      RangeOf(s.track);
      if r.track.frames != [] && s.track.frames != [] {
        SharedFrameSameTrack(tracks, r.track, s.track, r.at);
      } else if r.track.frames == [] && s.track.frames == [] {
        EmptiesContend(tracks, filterId, key, frame, r);
      } else if r.track.frames == [] {
        EmptyMeetsZero(tracks, r.track, s.track);
      } else {
        EmptyMeetsZero(tracks, s.track, r.track);
      }
    }
  }

  /** A track without frames conflicts with a track of frame 0 alone. */
  lemma EmptyMeetsZero(tracks: seq<Track>, a: Track, b: Track)
    requires SelfConsistent(tracks) && a in tracks && b in tracks && Matches(a, b.filterId, b.key)
    requires a.frames == [] && b.frames != []
    ensures Last(b) != 0
  {
    RangeOf(b);
    var i: nat :| i < |tracks| && tracks[i] == a;
    var j: nat :| j < |tracks| && tracks[j] == b;
    ConflictIsSymmetric(a, b);
  }

  /** When a track without frames is shown, every track with frames starts later. */
  lemma EmptiesContend(tracks: seq<Track>, filterId: nat, key: nat, frame: nat, r: Shown)
    requires SelfConsistent(tracks)
    requires Shows(tracks, filterId, key, frame, r) && r.At? && r.track.frames == []
    ensures OthersLater(tracks, filterId, key, frame)
  {
    RangeOf(r.track);
    forall t | t in tracks && Matches(t, filterId, key) && t.frames != [] ensures frame < First(t) {
      RangeOf(t);
      EmptyMeetsZero(tracks, r.track, t);
    }
  }

  /** What is shown is determined exactly when the list is not ambiguous. */
  lemma UniqueExactly(tracks: seq<Track>, filterId: nat, key: nat, frame: nat)
    requires SelfConsistent(tracks)
    ensures (forall r, s :: Shows(tracks, filterId, key, frame, r) && Shows(tracks, filterId, key, frame, s) ==> r == s)
            <==> !Ambiguous(tracks, filterId, key, frame)
  {
    if Ambiguous(tracks, filterId, key, frame) {
      var a, b :| a in tracks && b in tracks && Matches(a, filterId, key) && Matches(b, filterId, key)
                  && a.frames == [] && b.frames == [] && a != b;
      EmptyShown(tracks, filterId, key, frame, a);
      EmptyShown(tracks, filterId, key, frame, b);
    } else {
      forall r, s | Shows(tracks, filterId, key, frame, r) && Shows(tracks, filterId, key, frame, s) ensures r == s {
        ShownIsUnique(tracks, filterId, key, frame, r, s);
      }
    }
  }

  lemma EmptyShown(tracks: seq<Track>, filterId: nat, key: nat, frame: nat, a: Track)
    requires OthersLater(tracks, filterId, key, frame)
    requires a in tracks && Matches(a, filterId, key) && a.frames == []
    ensures Shows(tracks, filterId, key, frame, At(a, 0))
  {
    RangeOf(a);
    forall u | u in tracks && Matches(u, filterId, key)
      ensures !Active(u, frame) && (Last(u) <= frame ==> Last(u) <= Last(a))
    {
      RangeOf(u);
    }
  }

  // ---- The order of the list ----

  lemma {:induction false} TwoCopies(s: seq<Track>, x: Track)
    requires multiset(s)[x] >= 2
    ensures exists i: nat, j: nat :: i < j < |s| && s[i] == x && s[j] == x
  {
    var n := |s| - 1;
    assert s == s[..n] + [s[n]];
    if s[n] == x {
      assert x in multiset(s[..n]);
      var i: nat :| i < n && s[..n][i] == x;
      assert s[i] == x && s[n] == x;
    } else {
      TwoCopies(s[..n], x);
      var i: nat, j: nat :| i < j < n && s[..n][i] == x && s[..n][j] == x;
      assert s[i] == x && s[j] == x;
    }
  }

  lemma {:induction false} CopiesCounted(s: seq<Track>, i: nat, j: nat)
    requires i < j < |s| && s[i] == s[j]
    ensures multiset(s)[s[i]] >= 2
  {
    assert s == s[..j] + [s[j]] + s[j + 1..];
    assert s[i] in s[..j];
  }

  /** Being self-consistent does not depend on the order. */
  lemma ConsistencyIgnoresOrder(a: seq<Track>, b: seq<Track>)
    requires multiset(a) == multiset(b) && SelfConsistent(a)
    ensures SelfConsistent(b)
  {
    forall i: nat, j: nat | i < j < |b| ensures !Conflict(b[i], b[j]) {
      var x, y := b[i], b[j];
      assert x in multiset(b) && y in multiset(b);
      if x == y {
        CopiesCounted(b, i, j);
        TwoCopies(a, x);
      } else {
        var k: nat :| k < |a| && a[k] == x;
        var l: nat :| l < |a| && a[l] == y;
        ConflictIsSymmetric(x, y);
      }
    }
  }

  lemma ShowsIgnoresOrder(a: seq<Track>, b: seq<Track>, filterId: nat, key: nat, frame: nat, r: Shown)
    requires multiset(a) == multiset(b)
    ensures Shows(a, filterId, key, frame, r) == Shows(b, filterId, key, frame, r)
  {
    forall t ensures t in a <==> t in b {
      assert t in multiset(a) <==> t in multiset(b);
    }
  }

  /** Two orders of the same consistent tracks give the same text, unless different
      tracks without frames are all there is to show. */
  method SameInAnyOrder(a: seq<Track>, b: seq<Track>, filterId: nat, key: nat, frame: nat,
                        interp: (Track, nat) -> string)
    returns (first: string, second: string)
    requires multiset(a) == multiset(b) && SelfConsistent(a)
    ensures !Ambiguous(a, filterId, key, frame) ==> first == second
    ensures exists r :: Shows(a, filterId, key, frame, r) && first == Text(r, interp)
    ensures exists s :: Shows(a, filterId, key, frame, s) && second == Text(s, interp)
  {
    first := GetInterpolatedFilterData(a, filterId, key, frame, interp);
    second := GetInterpolatedFilterData(b, filterId, key, frame, interp);
    ghost var r :| Shows(a, filterId, key, frame, r) && first == Text(r, interp);
    ghost var s :| Shows(b, filterId, key, frame, s) && second == Text(s, interp);
    ShowsIgnoresOrder(a, b, filterId, key, frame, s);
    if !Ambiguous(a, filterId, key, frame) {
      ShownIsUnique(a, filterId, key, frame, r, s);
    }
  }
}
