/** The searches of a sector read one after the other, and the places they deliver. */
module FragTrail {
  import opened FragList

  /**
   * The list, the size of the disc in sectors, what lies in memory behind the index, and the transfers (first sector,
   * count) that the device fails.
   */
  datatype Setup = Setup(frags: seq<Fragment>, size: nat, stray: nat, fails: (nat, nat) -> bool)

  ghost predicate Sound(q: Setup) { Sorted(q.frags) }

  ghost predicate NeverFails(q: Setup) { forall s, c :: !q.fails(s, c) }

  /** How many fragments a search from sector o on may skip that do not end before it: none, but for one chunk. */
  function Entry(q: Setup, o: nat): (i: nat)
    ensures i <= |q.frags|
  {
    if o / CHUNK == MAX_INDEX then Least(q.stray, |q.frags|) else 0
  }

  function Found(q: Setup, o: nat, l: nat): (h: Hit)
    ensures Inside(h, o, l)
  {
    ScanInside(q.frags, q.size, Entry(q, o), o, l);
    Scan(q.frags, q.size, Entry(q, o), o, l)
  }

  /** A search that skips a fragment it should have found. */
  ghost predicate Misled(q: Setup, o: nat, l: nat) {
    exists j :: 0 <= j < Entry(q, o) && Bears(q.frags[j], o, l)
  }

  function Gaps(n: nat): (p: seq<Place>)
    ensures |p| == n
  {
    if n == 0 then [] else Gaps(n - 1) + [Gap]
  }

  function Run(s: nat, n: nat): (p: seq<Place>)
    ensures |p| == n
  {
    if n == 0 then [] else Run(s, n - 1) + [Device(s + n - 1)]
  }

  /** Where n sectors from o on really are. */
  function Truth(f: seq<Fragment>, o: nat, n: nat): (p: seq<Place>)
    ensures |p| == n
  {
    if n == 0 then [] else Truth(f, o, n - 1) + [Where(f, o + n - 1)]
  }

  lemma {:induction false} GapsAt(n: nat, k: nat)
    requires k < n
    ensures Gaps(n)[k] == Gap
  {
    if k < n - 1 {
      GapsAt(n - 1, k);
    }
  }

  lemma {:induction false} RunAt(s: nat, n: nat, k: nat)
    requires k < n
    ensures Run(s, n)[k] == Device(s + k)
  {
    if k < n - 1 {
      RunAt(s, n - 1, k);
    }
  }

  lemma {:induction false} TruthAt(f: seq<Fragment>, o: nat, n: nat, k: nat)
    requires k < n
    ensures Truth(f, o, n)[k] == Where(f, o + k)
  {
    if k < n - 1 {
      TruthAt(f, o, n - 1, k);
    }
  }

  /** The code of a sector read and the place of each sector it delivered. */
  datatype Trail = Trail(code: int, places: seq<Place>)

  /** What one search makes of its request. */
  function Step(h: Hit, o: nat): (p: seq<Place>)
    requires h.Hit? && o <= h.offset
    ensures |p| == h.offset + h.count - o
  {
    Gaps(h.offset - o) + Run(h.sector, h.count)
  }

  predicate Failing(q: Setup, h: Hit)
    requires h.Hit?
  {
    h.count > 0 && q.fails(h.sector, h.count)
  }

  function Follow(q: Setup, o: nat, l: nat): (t: Trail)
    ensures t.code == 0 || t.code == -2 || t.code == -3
    ensures t.code == 0 ==> |t.places| == l
    decreases l
  {
    if l == 0 then Trail(0, [])
    else
      var h := Found(q, o, l);
      if h.OutOfRange? then Trail(-2, [])
      else if Failing(q, h) then Trail(-3, [])
      else
        var n := h.offset + h.count - o;
        var t := Follow(q, o + n, l - n);
        Trail(t.code, Step(h, o) + t.places)
  }

  /** None of the searches that serve the request is misled. */
  ghost predicate Straight(q: Setup, o: nat, l: nat)
    decreases l
  {
    l > 0 ==>
      && !Misled(q, o, l)
      && var h := Found(q, o, l);
         h.Hit? ==> Straight(q, h.offset + h.count, l - (h.offset + h.count - o))
  }

  /** A run of sectors that can be read: within the disc, or at least ending on a mapped sector. */
  ghost predicate Readable(q: Setup, o: nat, l: nat) {
    l == 0 || o + l <= q.size || Where(q.frags, o + l - 1) != Gap
  }

  /** A search that reaches the end of its request found it mapped, or inside the disc. */
  lemma {:induction false} ScanEnds(q: Setup, i: nat, o: nat, l: nat)
    requires Sound(q) && i <= |q.frags| && l > 0
    ensures var h := Scan(q.frags, q.size, i, o, l);
            h.Hit? && h.offset + h.count == o + l ==> Readable(q, o, l)
    decreases |q.frags| - i
  {
    if i < |q.frags| {
      if Covers(q.frags[i], o + l - 1) {
        AtFragment(q.frags, i, o + l - 1);
      }
      ScanEnds(q, i + 1, o, l);
    }
  }

  /** A read that succeeds, misled or not, reads what can be read. */
  lemma {:induction false} SuccessReadable(q: Setup, o: nat, l: nat)
    requires Sound(q) && Follow(q, o, l).code == 0
    ensures Readable(q, o, l)
    decreases l
  {
    if l > 0 {
      var h := Found(q, o, l);
      var e, n := h.offset + h.count, h.offset + h.count - o;
      if n < l {
        SuccessReadable(q, e, l - n);
      } else {
        ScanEnds(q, Entry(q, o), o, l);
      }
    }
  }

  lemma {:induction false} NoFailure(q: Setup, o: nat, l: nat)
    requires NeverFails(q)
    ensures Follow(q, o, l).code != -3
    decreases l
  {
    if l > 0 {
      var h := Found(q, o, l);
      if h.Hit? {
        NoFailure(q, h.offset + h.count, l - (h.offset + h.count - o));
      }
    }
  }

  lemma {:induction false} TruthJoins(f: seq<Fragment>, o: nat, m: nat, n: nat)
    ensures Truth(f, o, m) + Truth(f, o + m, n) == Truth(f, o, m + n)
  {
    if n > 0 {
      TruthJoins(f, o, m, n - 1);
      assert Truth(f, o, m) + Truth(f, o + m, n)
          == Truth(f, o, m) + Truth(f, o + m, n - 1) + [Where(f, o + m + n - 1)];
    } else {
      assert Truth(f, o + m, n) == [];
    }
  }

  lemma {:induction false} GapsTrue(f: seq<Fragment>, o: nat, n: nat)
    requires GapRun(f, o, n)
    ensures Gaps(n) == Truth(f, o, n)
  {
    if n > 0 {
      assert GapAt(f, o, n - 1);
      assert GapRun(f, o, n - 1);
      GapsTrue(f, o, n - 1);
    }
  }

  lemma {:induction false} RunTrue(f: seq<Fragment>, o: nat, n: nat, s: nat)
    requires DeviceRun(f, o, n, s)
    ensures Run(s, n) == Truth(f, o, n)
  {
    if n > 0 {
      assert DeviceAt(f, o, s, n - 1);
      assert DeviceRun(f, o, n - 1, s);
      RunTrue(f, o, n - 1, s);
    }
  }

  /** One step that tells the truth. */
  lemma {:induction false} StepTrue(f: seq<Fragment>, h: Hit, o: nat, l: nat)
    requires h.Hit? && Tells(f, h, o, l)
    ensures Step(h, o) == Truth(f, o, h.offset + h.count - o)
  {
    GapsTrue(f, o, h.offset - o);
    RunTrue(f, h.offset, h.count, h.sector);
    TruthJoins(f, o, h.offset - o, h.count);
  }

  /** A search that is not misled tells the truth. */
  lemma {:induction false} SearchTrue(q: Setup, o: nat, l: nat)
    requires Sound(q) && l > 0 && !Misled(q, o, l)
    ensures var h := Found(q, o, l);
            if h.Hit? then Step(h, o) == Truth(q.frags, o, h.offset + h.count - o) else !Readable(q, o, l)
  {
    var h := Found(q, o, l);
    ScanTells(q.frags, q.size, Entry(q, o), o, l);
    if h.Hit? {
      StepTrue(q.frags, h, o, l);
    } else {
      assert GapAt(q.frags, o, l - 1);
    }
  }

  /** When no search is misled, success delivers the true places. */
  lemma {:induction false} StraightTrue(q: Setup, o: nat, l: nat)
    requires Sound(q) && Straight(q, o, l) && Follow(q, o, l).code == 0
    ensures Follow(q, o, l).places == Truth(q.frags, o, l)
    decreases l
  {
    if l > 0 {
      var h := Found(q, o, l);
      var e, n := h.offset + h.count, h.offset + h.count - o;
      var rest := Follow(q, e, l - n);
      assert Follow(q, o, l) == Trail(rest.code, Step(h, o) + rest.places);
      SearchTrue(q, o, l);
      StraightTrue(q, e, l - n);
      TruthJoins(q.frags, o, n, l - n);
    }
  }

  /** When no search is misled, -2 means that the run cannot be read. */
  lemma {:induction false} StraightRefused(q: Setup, o: nat, l: nat)
    requires Sound(q) && Straight(q, o, l) && Follow(q, o, l).code == -2
    ensures !Readable(q, o, l)
    decreases l
  {
    var h := Found(q, o, l);
    SearchTrue(q, o, l);
    if h.Hit? {
      StraightRefused(q, h.offset + h.count, l - (h.offset + h.count - o));
    }
  }

  lemma {:induction false} StepGap(h: Hit, o: nat, j: nat)
    requires h.Hit? && o + j < h.offset
    ensures Step(h, o)[j] == Gap
  {
    GapsAt(h.offset - o, j);
  }

  /** A misled search leaves out a mapped sector. */
  lemma {:induction false} MisledLeaves(q: Setup, o: nat, l: nat) returns (j: nat)
    requires Sound(q) && Misled(q, o, l) && l > 0 && Found(q, o, l).Hit?
    ensures j < l && j < Found(q, o, l).offset - o && Where(q.frags, o + j) != Gap
  {
    var i :| 0 <= i < Entry(q, o) && Bears(q.frags[i], o, l);
    ScanOvershoots(q.frags, q.size, i, Entry(q, o), o, l);
    var s := if q.frags[i].offset < o then o else q.frags[i].offset;
    AtFragment(q.frags, i, s);
    j := s - o;
  }

  lemma {:induction false} JoinedAt(s: seq<Place>, t: seq<Place>, j: nat)
    requires j < |s| + |t|
    ensures (s + t)[j] == if j < |s| then s[j] else t[j - |s|]
  {
  }

  lemma {:induction false} CrookedRest(q: Setup, o: nat, l: nat)
    requires !Straight(q, o, l) && Follow(q, o, l).code == 0
    ensures l > 0 && Found(q, o, l).Hit?
    ensures var h := Found(q, o, l);
            var e, n := h.offset + h.count, h.offset + h.count - o;
            && Follow(q, o, l).places == Step(h, o) + Follow(q, e, l - n).places && Follow(q, e, l - n).code == 0
            && (Misled(q, o, l) || !Straight(q, e, l - n))
  {
  }

  /** When one is misled, success delivers a gap for a sector that is mapped. */
  lemma {:induction false} CrookedWrong(q: Setup, o: nat, l: nat) returns (j: nat)
    requires Sound(q) && !Straight(q, o, l) && Follow(q, o, l).code == 0
    ensures j < l && Follow(q, o, l).places[j] == Gap && Where(q.frags, o + j) != Gap
    decreases l
  {
    CrookedRest(q, o, l);
    var h := Found(q, o, l);
    var e, n := h.offset + h.count, h.offset + h.count - o;
    if Misled(q, o, l) {
      j := MisledLeaves(q, o, l);
      StepGap(h, o, j);
      JoinedAt(Step(h, o), Follow(q, e, l - n).places, j);
    } else {
      var k := CrookedWrong(q, e, l - n);
      j := n + k;
      JoinedAt(Step(h, o), Follow(q, e, l - n).places, j);
    }
  }

  /** Over a device that works, a read of what can be read is right exactly when none of its searches is misled. */
  lemma {:induction false} TrailExactly(q: Setup, o: nat, l: nat)
    requires Sound(q) && NeverFails(q) && Readable(q, o, l)
    ensures Follow(q, o, l) == Trail(0, Truth(q.frags, o, l)) <==> Straight(q, o, l)
  {
    NoFailure(q, o, l);
    if Straight(q, o, l) {
      if Follow(q, o, l).code == 0 {
        StraightTrue(q, o, l);
      } else {
        StraightRefused(q, o, l);
      }
    } else if Follow(q, o, l).code == 0 {
      var j := CrookedWrong(q, o, l);
      TruthAt(q.frags, o, l, j);
    }
  }

  /** Only searches in the one chunk right behind the index can be misled. */
  lemma {:induction false} StraightElsewhere(q: Setup, o: nat, l: nat)
    requires o + l <= MAX_INDEX * CHUNK || o >= (MAX_INDEX + 1) * CHUNK
    ensures Straight(q, o, l)
    decreases l
  {
    if l > 0 {
      var h := Found(q, o, l);
      if h.Hit? {
        StraightElsewhere(q, h.offset + h.count, l - (h.offset + h.count - o));
      }
    }
  }
}
