/** The standalone fuzzer's uniform sampler and bounded mutator. */
module FuzzMutator {
  import opened Basics
  import opened Arith

  const WORDS: nat := 0x1_0000_0000_0000_0000

  // ------------------------------------------------------------------- sampling

  /** Engine words below this are rejected: the 64-bit negation of the bound, reduced by it. */
  function RejectionFloor(u: nat): nat
    requires 0 < u < WORDS
  {
    (WORDS - u) % u
  }

  /** The accepted words fall into whole runs of `u`, and lie above half the range at the worst. */
  lemma {:induction false} FloorFits(u: nat)
    requires 0 < u < WORDS
    ensures RejectionFloor(u) < u && 2 * RejectionFloor(u) <= WORDS
    ensures WORDS == RejectionFloor(u) + (WORDS / u) * u
  {
    var q, r := (WORDS - u) / u, (WORDS - u) % u;
    assert WORDS - u == q * u + r;
    Distribute(q, 1, u);
    DivModUnique(WORDS, u, q + 1, r);
    MulMonotone(1, q + 1, u);
  }

  lemma {:induction false} FloorBelowHalf(u: nat)
    requires 0 < u < WORDS
    ensures 2 * RejectionFloor(u) <= WORDS
  {
    FloorFits(u);
  }

  /** The words in a range that map to a residue. */
  ghost function Mapped(u: nat, r: nat, low: nat, high: nat): set<nat>
    requires u > 0
  {
    set v | low <= v < high && v % u == r
  }

  /** Any `u` consecutive words hold exactly one of each residue. */
  lemma {:induction false} OneEach(u: nat, r: nat, low: nat)
    requires r < u
    ensures |Mapped(u, r, low, low + u)| == 1
  {
    var v := ResidueFrom(u, r, low);
    var mapped := Mapped(u, r, low, low + u);
    forall w | w in mapped ensures w == v { SameResidue(u, v, w); }
    assert mapped == {v};
  }

  lemma {:induction false} OneMoreRun(u: nat, r: nat, low: nat, mid: nat)
    requires r < u && low <= mid
    ensures |Mapped(u, r, low, mid + u)| == |Mapped(u, r, low, mid)| + 1
  {
    OneEach(u, r, mid);
    var before, run := Mapped(u, r, low, mid), Mapped(u, r, mid, mid + u);
    assert Mapped(u, r, low, mid + u) == before + run;
    assert before !! run;
  }

  lemma {:induction false} RunsHold(u: nat, r: nat, low: nat, runs: nat, high: nat)
    requires r < u && high == low + runs * u
    ensures |Mapped(u, r, low, high)| == runs
    decreases runs
  {
    hide Mapped;
    if runs == 0 {
      NoneMapped(u, r, low);
    } else {
      Distribute(runs, 1, u);
      MulNonNegative(runs - 1, u);
      RunsHold(u, r, low, runs - 1, high - u);
      OneMoreRun(u, r, low, high - u);
    }
  }

  lemma {:induction false} NoneMapped(u: nat, r: nat, low: nat)
    requires u > 0
    ensures |Mapped(u, r, low, low)| == 0
  {
    assert Mapped(u, r, low, low) == {};
  }

  /** Every residue below the bound is the image of equally many accepted words. */
  lemma {:induction false} ExactlyUniform(u: nat, r: nat)
    requires 0 < u < WORDS && r < u
    ensures |Mapped(u, r, RejectionFloor(u), WORDS)| == WORDS / u
  {
    FloorFits(u);
    RunsHold(u, r, RejectionFloor(u), WORDS / u, WORDS);
  }

  /** From word `first` on, the words below the floor are passed over; the next one, reduced by the bound, is the
      value, and `next` is the word after it. */
  ghost predicate Draws(words: nat -> nat, first: nat, u: nat, value: nat, next: nat)
    requires 0 < u < WORDS
  {
    && first < next && RejectionFloor(u) <= words(next - 1) && value == words(next - 1) % u
    && Refused(words, first, next - 1, RejectionFloor(u))
  }

  ghost predicate Refused(words: nat -> nat, first: nat, next: nat, floor: nat) {
    forall k :: first <= k < next ==> words(k) < floor
  }

  ghost predicate DrawsByte(words: nat -> nat, first: nat, byte: Byte, next: nat) {
    exists value :: 0 <= value < 256 && Draws(words, first, 256, value, next) && byte == value as Byte
  }

  lemma {:induction false} NoneRefused(words: nat -> nat, first: nat, floor: nat)
    ensures Refused(words, first, first, floor)
  {
  }

  lemma {:induction false} OneRefused(words: nat -> nat, first: nat, next: nat, floor: nat)
    requires Refused(words, first, next, floor) && words(next) < floor
    ensures Refused(words, first, next + 1, floor)
  {
  }

  /** A draw is determined by the words. */
  lemma {:induction false} DrawsOne(words: nat -> nat, first: nat, u: nat, v: nat, p: nat, w: nat, q: nat)
    requires 0 < u < WORDS && Draws(words, first, u, v, p) && Draws(words, first, u, w, q)
    ensures v == w && p == q
  {
    hide RejectionFloor;
    assert words(p - 1) >= RejectionFloor(u) && words(q - 1) >= RejectionFloor(u);
  }

  /** An engine: a stream of 64-bit words, the upper half of the range never drying up. */
  class Engine {
    const words: nat -> nat
    var position: nat

    ghost predicate Fair() {
      && (forall k :: words(k) < WORDS)
      && (forall k :: Reaches(k))
    }

    ghost predicate Reaches(k: nat) {
      exists j :: j >= k && 2 * words(j) >= WORDS
    }

    method Next() returns (value: nat)
      requires Fair()
      modifies this
      ensures value == words(old(position)) && position == old(position) + 1
    {
      value := words(position);
      position := position + 1;
    }

    /** Draws until a word is accepted: the first accepted word, reduced by the bound. A zero bound is refused. */
    method RandomBelow(u: nat) returns (r: Option<nat>)
      requires Fair() && u < WORDS
      modifies this
      ensures u == 0 ==> r == None && position == old(position)
      ensures u > 0 ==> r.Some? && r.value < u && Draws(words, old(position), u, r.value, position)
    {
      hide RejectionFloor, Refused;
      if u == 0 { return None; }
      var floor := RejectionFloor(u);
      FloorBelowHalf(u);
      assert Reaches(position);
      ghost var accepted :| accepted >= position && 2 * words(accepted) >= WORDS;
      hide Fair, Reaches;
      ghost var first := position;
      var value := Next();
      NoneRefused(words, first, floor);
      while value < floor
        invariant first < position <= accepted + 1 && value == words(position - 1)
        invariant Refused(words, first, position - 1, floor)
        decreases accepted + 1 - position
      {
        OneRefused(words, first, position - 1, floor);
        value := Next();
      }
      return Some(value % u);
    }

    /** A drawn index, or zero without a draw for an empty range. */
    method RandomIndex(size: nat) returns (r: nat)
      requires Fair() && size < WORDS
      modifies this
      ensures size > 0 ==> r < size && Draws(words, old(position), size, r, position)
      ensures size == 0 ==> r == 0 && position == old(position)
    {
      hide Draws;
      if size == 0 { return 0; }
      var drawn := RandomBelow(size);
      r := drawn.value;
    }

    method RandomByte() returns (b: Byte)
      requires Fair()
      modifies this
      ensures DrawsByte(words, old(position), b, position)
    {
      hide Draws, Fair;
      var drawn := RandomBelow(256);
      b := drawn.value as Byte;
    }
  }

  // -------------------------------------------------------------------- editing

  /** One edit with the positions it was drawn with. */
  datatype Edit =
    | Nothing
    | Flip(offset: nat, bit: nat)
    | Replace(offset: nat, byte: Byte)
    | Insert(offset: nat, byte: Byte)
    | Erase(offset: nat)
    | Duplicate(first: nat, length: nat, destination: nat)
    | Truncate(length: nat)
    | Splice(other: nat, source: nat, count: nat, destination: nat)
    | Regenerate(content: Bytes)

  /** The edit's positions are in range and it may be drawn for this input. */
  predicate Applicable(e: Edit, s: Bytes, corpus: seq<Bytes>, maxLength: nat) {
    match e
    case Nothing => true
    case Flip(offset, bit) => offset < |s| && bit < 8
    case Replace(offset, _) => offset < |s|
    case Insert(offset, _) => offset <= |s| < maxLength
    case Erase(offset) => offset < |s|
    case Duplicate(first, length, destination) =>
      0 < length <= maxLength - |s| && first + length <= |s| && destination <= |s|
    case Truncate(length) => s != [] && length <= |s|
    case Splice(other, source, count, destination) =>
      && other < |corpus| && source + count <= |corpus[other]| && 0 < count <= maxLength - |s|
      && destination <= |s|
    case Regenerate(content) => |content| <= Min(maxLength, Max(1, |s| + 16))
  }

  /** The byte with one bit inverted. */
  function Flipped(b: Byte, bit: nat): Byte
    requires bit < 8
  {
    b ^ ((1 as Byte) << bit)
  }

  function Apply(e: Edit, s: Bytes, corpus: seq<Bytes>, maxLength: nat): Bytes
    requires Applicable(e, s, corpus, maxLength)
  {
    match e
    case Nothing => s
    case Flip(offset, bit) => s[offset := Flipped(s[offset], bit)]
    case Replace(offset, byte) => s[offset := byte]
    case Insert(offset, byte) => s[..offset] + [byte] + s[offset..]
    case Erase(offset) => s[..offset] + s[offset + 1..]
    case Duplicate(first, length, destination) => s[..destination] + s[first..first + length] + s[destination..]
    case Truncate(length) => s[..length]
    case Splice(other, source, count, destination) =>
      s[..destination] + corpus[other][source..source + count] + s[destination..]
    case Regenerate(content) => content
  }

  /** The operation number selects the edit, or nothing when the input does not allow it. */
  predicate Selected(operation: nat, e: Edit, s: Bytes, corpus: seq<Bytes>, maxLength: nat) {
    match e
    case Nothing =>
      || (operation in {0, 1, 3, 4, 5} && s == [])
      || (operation in {2, 4, 6} && |s| >= maxLength)
      || (operation == 6 && [] in corpus)
    case Flip(_, _) => operation == 0
    case Replace(_, _) => operation == 1
    case Insert(_, _) => operation == 2
    case Erase(_) => operation == 3
    case Duplicate(_, _, _) => operation == 4
    case Truncate(_) => operation == 5
    case Splice(_, _, _, _) => operation == 6
    case Regenerate(_) => operation == 7
  }

  /** From `at` on, `removed` bytes of `s` are replaced by `added`; every other byte stays. */
  predicate Edited(s: Bytes, r: Bytes, at: nat, removed: nat, added: Bytes) {
    && at + removed <= |s| && |r| == |s| - removed + |added|
    && (forall j :: 0 <= j < at ==> r[j] == s[j])
    && (forall j :: 0 <= j < |added| ==> r[at + j] == added[j])
    && (forall j :: at + |added| <= j < |r| ==> r[j] == s[j - |added| + removed])
  }

  lemma {:induction false} EditedBySlices(s: Bytes, at: nat, removed: nat, added: Bytes)
    requires at + removed <= |s|
    ensures Edited(s, s[..at] + added + s[at + removed..], at, removed, added)
  {
  }

  lemma {:induction false} EditedByUpdate(s: Bytes, at: nat, byte: Byte)
    requires at < |s|
    ensures Edited(s, s[at := byte], at, 1, [byte])
  {
  }

  /** What every edit changes, byte by byte. */
  lemma {:induction false} EditsBytes(e: Edit, s: Bytes, corpus: seq<Bytes>, maxLength: nat)
    requires Applicable(e, s, corpus, maxLength)
    ensures var r := Apply(e, s, corpus, maxLength);
            match e
            case Nothing => r == s
            case Flip(offset, bit) => Edited(s, r, offset, 1, [Flipped(s[offset], bit)])
            case Replace(offset, byte) => Edited(s, r, offset, 1, [byte])
            case Insert(offset, byte) => Edited(s, r, offset, 0, [byte])
            case Erase(offset) => Edited(s, r, offset, 1, [])
            case Duplicate(first, length, destination) => Edited(s, r, destination, 0, s[first..first + length])
            case Truncate(length) => Edited(s, r, length, |s| - length, [])
            case Splice(other, source, count, destination) =>
              Edited(s, r, destination, 0, corpus[other][source..source + count])
            case Regenerate(content) => Edited(s, r, 0, |s|, content)
  {
    hide Flipped, Edited;
    match e
    case Nothing =>
    case Flip(offset, bit) => EditedByUpdate(s, offset, Flipped(s[offset], bit));
    case Replace(offset, byte) => EditedByUpdate(s, offset, byte);
    case Insert(offset, byte) => EditedBySlices(s, offset, 0, [byte]);
    case Erase(offset) =>
      EditedBySlices(s, offset, 1, []);
      assert s[..offset] + [] + s[offset + 1..] == s[..offset] + s[offset + 1..];
    case Duplicate(first, length, destination) => EditedBySlices(s, destination, 0, s[first..first + length]);
    case Truncate(length) =>
      EditedBySlices(s, length, |s| - length, []);
      assert s[..length] + [] + s[|s|..] == s[..length];
    case Splice(other, source, count, destination) =>
      EditedBySlices(s, destination, 0, corpus[other][source..source + count]);
    case Regenerate(content) =>
      EditedBySlices(s, 0, |s|, content);
      assert s[..0] + content + s[|s|..] == content;
  }

  /** No edit takes an input past the limit. */
  lemma {:induction false} StaysBounded(e: Edit, s: Bytes, corpus: seq<Bytes>, maxLength: nat)
    requires Applicable(e, s, corpus, maxLength) && |s| <= maxLength
    ensures |Apply(e, s, corpus, maxLength)| <= maxLength
  {
  }

  /** Applies edits in order, each to the result of the one before. */
  ghost predicate Run(edits: seq<Edit>, inputs: seq<Bytes>, corpus: seq<Bytes>, maxLength: nat) {
    && |inputs| == |edits| + 1
    && forall k :: 0 <= k < |edits| ==>
         && Applicable(edits[k], inputs[k], corpus, maxLength)
         && inputs[k + 1] == Apply(edits[k], inputs[k], corpus, maxLength)
  }

  /** Over any run of mutations every input stays within the limit. */
  lemma {:induction false} RunStaysBounded(edits: seq<Edit>, inputs: seq<Bytes>, corpus: seq<Bytes>, maxLength: nat,
                                           k: nat)
    requires Run(edits, inputs, corpus, maxLength) && |inputs[0]| <= maxLength && k < |inputs|
    ensures |inputs[k]| <= maxLength
  {
    if k > 0 {
      RunStaysBounded(edits, inputs, corpus, maxLength, k - 1);
      StaysBounded(edits[k - 1], inputs[k - 1], corpus, maxLength);
    }
  }

  lemma {:induction false} FlippedTwice(b: Byte, bit: nat, other: nat)
    requires bit < 8 && other < 8
    ensures Flipped(b, bit) != b && (Flipped(Flipped(b, bit), other) == b <==> bit == other)
  {
    if bit != other { assert (1 as Byte) << bit != (1 as Byte) << other; }
  }

  /** A flip is undone by flipping the same bit again, and by no other flip. */
  lemma {:induction false} FlipUndone(s: Bytes, e: Edit, other: Edit, corpus: seq<Bytes>, maxLength: nat)
    requires e.Flip? && other.Flip? && Applicable(e, s, corpus, maxLength) && Applicable(other, s, corpus, maxLength)
    ensures Apply(other, Apply(e, s, corpus, maxLength), corpus, maxLength) == s <==> e == other
  {
    hide Flipped;
    var after := Apply(e, s, corpus, maxLength);
    var last := Apply(other, after, corpus, maxLength);
    FlippedTwice(s[e.offset], e.bit, other.bit);
    assert e.offset != other.offset ==> last[e.offset] == after[e.offset];
    assert e.offset == other.offset ==> last[e.offset] == Flipped(after[e.offset], other.bit);
  }

  lemma {:induction false} Alike(s: Bytes, low: nat, high: nat)
    requires low <= high < |s| && forall j :: low <= j < high ==> s[j] == s[j + 1]
    ensures forall j :: low <= j <= high ==> s[j] == s[low]
  {
    if low < high {
      Alike(s, low, high - 1);
      assert s[high - 1] == s[high - 1 + 1];
    }
  }

  /** Leaving out one position of a list or another gives the same list when all between are equal. */
  lemma {:induction false} LeftOut(s: Bytes, low: nat, high: nat)
    requires low <= high < |s|
    ensures s[..low] + s[low + 1..] == s[..high] + s[high + 1..] <==> forall j :: low <= j <= high ==> s[j] == s[low]
  {
    var a, b := s[..low] + s[low + 1..], s[..high] + s[high + 1..];
    assert forall j :: low <= j < high ==> a[j] == s[j + 1] && b[j] == s[j];
    assert forall j :: 0 <= j < |a| && !(low <= j < high) ==> a[j] == b[j];
    if a == b {
      forall j | low <= j < high ensures s[j] == s[j + 1] { assert a[j] == b[j]; }
      Alike(s, low, high);
    }
  }

  /** An insertion is undone by erasing the byte, or another one of the run of equal bytes that it joined. */
  lemma {:induction false} InsertUndone(s: Bytes, e: Edit, other: Edit, corpus: seq<Bytes>, maxLength: nat)
    requires e.Insert? && other.Erase? && Applicable(e, s, corpus, maxLength)
    requires Applicable(other, Apply(e, s, corpus, maxLength), corpus, maxLength)
    ensures var after := Apply(e, s, corpus, maxLength);
            Apply(other, after, corpus, maxLength) == s <==>
            forall j :: Min(e.offset, other.offset) <= j <= Max(e.offset, other.offset) ==> after[j] == e.byte
  {
    var o, k, after := e.offset, other.offset, Apply(e, s, corpus, maxLength);
    assert after[..o] + after[o + 1..] == s && after[o] == e.byte;
    LeftOut(after, Min(o, k), Max(o, k));
  }

  // -------------------------------------------------------------------- mutating

  /** Lengths a vector can have with room for the draws made about it. */
  predicate Sized(s: Bytes) {
    |s| + 17 < WORDS
  }

  /** Two values drawn one after the other. */
  ghost predicate DrawsTwo(words: nat -> nat, first: nat, u: nat, a: nat, v: nat, b: nat, next: nat)
    requires 0 < u < WORDS && 0 < v < WORDS
  {
    exists mid :: Draws(words, first, u, a, mid) && Draws(words, mid, v, b, next)
  }

  ghost predicate ByteThenIndex(words: nat -> nat, first: nat, byte: Byte, u: nat, index: nat, next: nat)
    requires 0 < u < WORDS
  {
    exists mid :: DrawsByte(words, first, byte, mid) && Draws(words, mid, u, index, next)
  }

  ghost predicate IndexThenByte(words: nat -> nat, first: nat, u: nat, index: nat, byte: Byte, next: nat)
    requires 0 < u < WORDS
  {
    exists mid :: Draws(words, first, u, index, mid) && DrawsByte(words, mid, byte, next)
  }

  /** Bytes drawn one after another. */
  ghost predicate DrawsBytes(words: nat -> nat, first: nat, content: Bytes, next: nat)
    decreases content, 0
  {
    if content == [] then next == first
    else DrawsOneMore(words, first, content[..|content| - 1], content[|content| - 1], next)
  }

  ghost predicate DrawsOneMore(words: nat -> nat, first: nat, content: Bytes, byte: Byte, next: nat)
    decreases content, 1
  {
    exists mid :: DrawsBytes(words, first, content, mid) && DrawsByte(words, mid, byte, next)
  }

  ghost predicate Idle(e: Edit, first: nat, next: nat) {
    e == Nothing && next == first
  }

  ghost predicate DrawsDuplicate(e: Edit, size: nat, maxLength: nat, words: nat -> nat, first: nat, next: nat)
    requires 0 < size < maxLength && size + 1 < WORDS
  {
    && e.Duplicate? && e.first < size
    && exists mid, wanted :: Wanted(size, e.first, words, first, mid, wanted) &&
         DuplicateAt(e, size, maxLength, wanted, words, mid, next)
  }

  ghost predicate Wanted(size: nat, p: nat, words: nat -> nat, first: nat, next: nat, wanted: nat)
    requires p < size && size + 1 < WORDS
  {
    DrawsTwo(words, first, size, p, size - p + 1, wanted, next)
  }

  ghost predicate DuplicateAt(e: Edit, size: nat, maxLength: nat, wanted: nat, words: nat -> nat, first: nat, next: nat)
    requires e.Duplicate? && size < maxLength && size + 1 < WORDS
  {
    e.length == Min(Max(1, wanted), maxLength - size) && Draws(words, first, size + 1, e.destination, next)
  }

  ghost predicate DrawsSplice(e: Edit, s: Bytes, corpus: seq<Bytes>, other: nat, maxLength: nat, words: nat -> nat,
                              first: nat, next: nat)
    requires other < |corpus| && Sized(corpus[other]) && Sized(s)
  {
    var size := |corpus[other]|;
    if size == 0 || |s| >= maxLength then Idle(e, first, next)
    else
      && e.Splice? && e.other == other && e.source < size && e.count == Min(size - e.source, maxLength - |s|)
      && DrawsTwo(words, first, size, e.source, |s| + 1, e.destination, next)
  }

  ghost predicate DrawsContent(e: Edit, target: nat, words: nat -> nat, first: nat, next: nat)
    requires target < WORDS && target > 0
  {
    e.Regenerate? && var count := |e.content|;
    exists mid :: Draws(words, first, target, count, mid) && DrawsBytes(words, mid, e.content, next)
  }

  /** The edit that an operation draws for an input, and the words it uses up; nothing when its guard fails. */
  ghost predicate Drawn(operation: nat, e: Edit, s: Bytes, corpus: seq<Bytes>, maxLength: nat, words: nat -> nat,
                        first: nat, next: nat)
    requires corpus != [] && |corpus| < WORDS && maxLength + 1 < WORDS
    requires Sized(s) && forall k :: 0 <= k < |corpus| ==> Sized(corpus[k])
  {
    if operation in {0, 1, 3, 5} && s == [] then Idle(e, first, next)
    else
      match operation
      case 0 => e.Flip? && DrawsTwo(words, first, |s|, e.offset, 8, e.bit, next)
      case 1 => e.Replace? && ByteThenIndex(words, first, e.byte, |s|, e.offset, next)
      case 2 =>
        if |s| >= maxLength then Idle(e, first, next)
        else e.Insert? && IndexThenByte(words, first, |s| + 1, e.offset, e.byte, next)
      case 3 => e.Erase? && Draws(words, first, |s|, e.offset, next)
      case 4 =>
        if s == [] || |s| >= maxLength then Idle(e, first, next)
        else DrawsDuplicate(e, |s|, maxLength, words, first, next)
      case 5 => e.Truncate? && Draws(words, first, |s| + 1, e.length, next)
      case 6 =>
        exists mid, other :: 0 <= other < |corpus| && Draws(words, first, |corpus|, other, mid) &&
          DrawsSplice(e, s, corpus, other, maxLength, words, mid, next)
      case 7 => DrawsContent(e, Min(maxLength, Max(1, |s| + 16)) + 1, words, first, next)
      case _ => false
  }

  class Input {
    var bytes: Bytes

    constructor (bytes: Bytes)
      ensures this.bytes == bytes
    {
      this.bytes := bytes;
    }

    /** Draws one edit for the current input; nothing is changed yet. */
    method Draw(operation: nat, corpus: seq<Bytes>, maxLength: nat, random: Engine) returns (e: Edit)
      requires random.Fair() && operation < 8 && corpus != [] && |corpus| < WORDS && maxLength + 1 < WORDS
      requires Sized(bytes) && forall k :: 0 <= k < |corpus| ==> Sized(corpus[k])
      modifies random
      ensures Applicable(e, bytes, corpus, maxLength) && Selected(operation, e, bytes, corpus, maxLength)
      ensures Drawn(operation, e, bytes, corpus, maxLength, random.words, old(random.position), random.position)
    {
      hide Draws, DrawsByte;
      ghost var words, start := random.words, random.position;
      var size := |bytes|;
      e := Nothing;
      match operation {
        case 0 =>
          if bytes != [] {
            var offset := random.RandomIndex(size);
            var bit := random.RandomBelow(8);
            e := Flip(offset, bit.value);
            assert DrawsTwo(words, start, size, offset, 8, bit.value, random.position);
          }
        case 1 =>
          if bytes != [] {
            var byte := random.RandomByte();
            var offset := random.RandomIndex(size);
            e := Replace(offset, byte);
            assert ByteThenIndex(words, start, byte, size, offset, random.position);
          }
        case 2 =>
          if size < maxLength {
            var offset := random.RandomIndex(size + 1);
            var byte := random.RandomByte();
            e := Insert(offset, byte);
            assert IndexThenByte(words, start, size + 1, offset, byte, random.position);
          }
        case 3 =>
          if bytes != [] {
            var offset := random.RandomIndex(size);
            e := Erase(offset);
          }
        case 4 =>
          if bytes != [] && size < maxLength {
            var first := random.RandomIndex(size);
            var wanted := random.RandomIndex(size - first + 1);
            var length := Min(Max(1, wanted), maxLength - size);
            ghost var mid := random.position;
            assert Wanted(size, first, words, start, mid, wanted);
            var destination := random.RandomIndex(size + 1);
            e := Duplicate(first, length, destination);
            assert DuplicateAt(e, size, maxLength, wanted, words, mid, random.position);
          }
        case 5 =>
          if bytes != [] {
            var length := random.RandomIndex(size + 1);
            e := Truncate(length);
          }
        case 6 =>
          var other := random.RandomIndex(|corpus|);
          ghost var mid := random.position;
          if corpus[other] != [] && size < maxLength {
            var source := random.RandomIndex(|corpus[other]|);
            var count := Min(|corpus[other]| - source, maxLength - size);
            var destination := random.RandomIndex(size + 1);
            e := Splice(other, source, count, destination);
            assert DrawsTwo(words, mid, |corpus[other]|, source, size + 1, destination, random.position);
          }
          assert DrawsSplice(e, bytes, corpus, other, maxLength, words, mid, random.position);
        case _ =>
          var target := Min(maxLength, Max(1, size + 16));
          var count := random.RandomIndex(target + 1);
          ghost var mid := random.position;
          var content := [];
          while |content| < count
            invariant |content| <= count && DrawsBytes(words, mid, content, random.position)
          {
            var byte := random.RandomByte();
            content := content + [byte];
            assert content[..|content| - 1] + [byte] == content;
          }
          e := Regenerate(content);
          assert DrawsContent(e, target + 1, words, start, random.position);
      }
    }

    /** One mutation: the drawn edit, applied in place. */
    method Mutate(corpus: seq<Bytes>, maxLength: nat, random: Engine) returns (e: Edit)
      requires random.Fair() && corpus != [] && |corpus| < WORDS && maxLength + 1 < WORDS
      requires Sized(bytes) && forall k :: 0 <= k < |corpus| ==> Sized(corpus[k])
      modifies this, random
      ensures Applicable(e, old(bytes), corpus, maxLength) && bytes == Apply(e, old(bytes), corpus, maxLength)
      ensures exists operation, mid ::
                && 0 <= operation < 8 && Draws(random.words, old(random.position), 8, operation, mid)
                && Drawn(operation, e, old(bytes), corpus, maxLength, random.words, mid, random.position)
      ensures |old(bytes)| <= maxLength ==> |bytes| <= maxLength
    {
      hide Draws, Drawn;
      var operation := random.RandomBelow(8);
      ghost var mid := random.position;
      e := Draw(operation.value, corpus, maxLength, random);
      bytes := Apply(e, bytes, corpus, maxLength);
      if |old(bytes)| <= maxLength { StaysBounded(e, old(bytes), corpus, maxLength); }
    }
  }
}
