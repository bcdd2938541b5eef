/** Byte streams over files read in bounded chunks, and their concatenation over many paths. */
module ChunkStreams {
  import opened Basics

  datatype StreamError = InvalidRequest | OutOfMemory
  type Reply<T> = Outcome<T, StreamError>

  datatype SourceLabel = SourceLabel(name: string, index: nat)

  /** A run of bytes, its offset in the stream, and the path it came from when names are given. */
  datatype Chunk = Chunk(data: Bytes, baseOffset: nat, source: Option<SourceLabel>)

  const SIZE_MAX: nat := 0xFFFF_FFFF_FFFF_FFFF
  const MAX_CHUNK_REQUEST_BYTES: nat := 256 * 1024 * 1024
  const MATERIALIZATION_READ_BYTES: nat := 1024 * 1024

  predicate ValidRequest(maxBytes: int) {
    0 < maxBytes <= MAX_CHUNK_REQUEST_BYTES
  }

  predicate GrowthFits(current: nat, additional: nat, limit: nat) {
    current <= limit && additional <= limit - current
  }

  // ----------------------------------------------------------------- one file

  class FileChunkSource {
    const content: Bytes
    var isOpen: bool
    var offset: nat
    var pos: nat
    var eof: bool

    ghost predicate Valid()
      reads this
    {
      && pos <= |content|
      && (if isOpen then offset == pos else pos == 0)
      && (eof ==> pos == |content|)
    }

    constructor (bytes: Bytes)
      ensures Valid() && content == bytes && pos == 0
    {
      content, isOpen, offset, pos, eof := bytes, false, 0, 0, false;
    }

    method Reset()
      modifies this
      ensures Valid() && pos == 0
    {
      isOpen, offset, pos, eof := false, 0, 0, false;
    }

    /** A read returns some of the requested bytes, and none only at the end. */
    method Read(requested: nat) returns (bytes: Bytes)
      requires Valid() && isOpen && requested > 0
      modifies this`offset
      ensures offset <= |content| && |bytes| <= requested && old(offset) <= offset
      ensures bytes == content[old(offset)..offset]
      ensures bytes == [] <==> old(offset) == |content|
    {
      var available := if |content| - offset < requested then |content| - offset else requested;
      var n: nat := available;
      if available > 0 { n :| 1 <= n <= available; }
      bytes := content[offset..offset + n];
      offset := offset + n;
    }

    method NextChunk(maxBytes: int) returns (r: Reply<Chunk>)
      requires Valid()
      modifies this
      ensures Valid() && r.Ok? == ValidRequest(maxBytes)
      ensures r.Err? ==> pos == old(pos) && r.error == InvalidRequest
      ensures r.Ok? ==>
                && old(pos) <= pos && |r.value.data| <= maxBytes
                && r.value.data == content[old(pos)..pos]
                && r.value.baseOffset == old(pos) && r.value.source == None
                && (r.value.data == [] <==> old(pos) == |content|)
    {
      if !ValidRequest(maxBytes) { return Err(InvalidRequest); }
      if eof { return Ok(Chunk([], pos, None)); }
      if !isOpen { isOpen, offset := true, 0; }
      var bytes := Read(maxBytes);
      if |bytes| == 0 {
        eof := true;
        return Ok(Chunk([], pos, None));
      }
      r := Ok(Chunk(bytes, pos, None));
      pos := pos + |bytes|;
    }
  }

  // --------------------------------------------------------- the joined stream

  /** The bytes before file `k`: the earlier files, each followed by the separator. */
  function Lead(files: seq<Bytes>, sep: Bytes, k: nat): Bytes
    requires k <= |files|
  {
    if k == 0 then [] else Lead(files, sep, k - 1) + files[k - 1] + sep
  }

  /** The files with the separator between them. */
  function Joined(files: seq<Bytes>, sep: Bytes): Bytes {
    if files == [] then [] else Lead(files, sep, |files| - 1) + files[|files| - 1]
  }

  lemma {:induction false} LeadGrows(files: seq<Bytes>, sep: Bytes, j: nat, k: nat)
    requires j <= k <= |files|
    ensures Lead(files, sep, j) <= Lead(files, sep, k)
    decreases k
  {
    if j < k { LeadGrows(files, sep, j, k - 1); }
  }

  /** The stream up to `p` bytes into file `k`. */
  function AtFile(files: seq<Bytes>, sep: Bytes, k: nat, p: nat): Bytes
    requires k < |files| && p <= |files[k]|
  {
    Lead(files, sep, k) + files[k][..p]
  }

  /** The stream up to `p` bytes into the separator after file `k`. */
  function AtSeparator(files: seq<Bytes>, sep: Bytes, k: nat, p: nat): Bytes
    requires k < |files| && p <= |sep|
  {
    Lead(files, sep, k) + files[k] + sep[..p]
  }

  /** A file, and the separator that follows it, lie inside the joined stream. */
  lemma {:induction false} FileInside(files: seq<Bytes>, sep: Bytes, k: nat)
    requires k < |files|
    ensures AtFile(files, sep, k, |files[k]|) <= Joined(files, sep)
    ensures k + 1 < |files| ==> AtSeparator(files, sep, k, |sep|) <= Joined(files, sep)
  {
    hide Lead;
    assert AtFile(files, sep, k, |files[k]|) == Lead(files, sep, k) + files[k];
    if k + 1 < |files| {
      LeadGrows(files, sep, k + 1, |files| - 1);
      SeparatorEnds(files, sep, k);
    }
  }

  lemma {:induction false} FileStarts(files: seq<Bytes>, sep: Bytes, k: nat)
    requires k < |files|
    ensures AtFile(files, sep, k, 0) == Lead(files, sep, k)
  {
  }

  lemma {:induction false} FileEnds(files: seq<Bytes>, sep: Bytes, k: nat)
    requires k < |files|
    ensures AtFile(files, sep, k, |files[k]|) == AtSeparator(files, sep, k, 0)
    ensures k + 1 == |files| ==> AtFile(files, sep, k, |files[k]|) == Joined(files, sep)
    ensures sep == [] ==> AtFile(files, sep, k, |files[k]|) == Lead(files, sep, k + 1)
  {
  }

  lemma {:induction false} SeparatorEnds(files: seq<Bytes>, sep: Bytes, k: nat)
    requires k < |files|
    ensures AtSeparator(files, sep, k, |sep|) == Lead(files, sep, k + 1)
  {
    assert sep[..|sep|] == sep;
  }

  /** Stream offsets `base..base + n` fall inside file `k`. */
  predicate InFile(files: seq<Bytes>, sep: Bytes, k: nat, base: nat, n: nat) {
    k < |files| && |Lead(files, sep, k)| <= base && base + n <= |Lead(files, sep, k)| + |files[k]|
  }

  /** Stream offsets `base..base + n` fall inside the separator after file `k`. */
  predicate InSeparator(files: seq<Bytes>, sep: Bytes, k: nat, base: nat, n: nat) {
    k + 1 < |files| && |Lead(files, sep, k)| + |files[k]| <= base && base + n <= |Lead(files, sep, k + 1)|
  }

  /** The label tells the file the bytes came from whenever that file has a name. */
  ghost predicate Labelled(files: seq<Bytes>, sep: Bytes, names: seq<string>, c: Chunk) {
    match c.source
    case Some(l) => l.index < |names| && l.name == names[l.index] && InFile(files, sep, l.index, c.baseOffset, |c.data|)
    case None => exists k :: (|names| <= k && InFile(files, sep, k, c.baseOffset, |c.data|))
                             || InSeparator(files, sep, k, c.baseOffset, |c.data|)
  }

  lemma {:induction false} FileAdvances(files: seq<Bytes>, sep: Bytes, names: seq<string>, k: nat, p: nat, q: nat,
                                        source: Option<SourceLabel>)
    requires k < |files| && p <= q <= |files[k]|
    requires source == if k < |names| then Some(SourceLabel(names[k], k)) else None
    ensures |AtFile(files, sep, k, p)| == |Lead(files, sep, k)| + p <= |Joined(files, sep)|
    ensures AtFile(files, sep, k, q) == AtFile(files, sep, k, p) + files[k][p..q] <= Joined(files, sep)
    ensures p < q ==> AtFile(files, sep, k, p) != Joined(files, sep)
    ensures Labelled(files, sep, names, Chunk(files[k][p..q], |Lead(files, sep, k)| + p, source))
  {
    hide Lead, Joined;
    FileInside(files, sep, k);
    assert files[k][..q] == files[k][..p] + files[k][p..q];
    assert InFile(files, sep, k, |Lead(files, sep, k)| + p, q - p);
  }

  lemma {:induction false} SeparatorAdvances(files: seq<Bytes>, sep: Bytes, names: seq<string>, k: nat, p: nat, q: nat)
    requires k + 1 < |files| && p <= q <= |sep|
    ensures |AtSeparator(files, sep, k, q)| <= |Joined(files, sep)|
    ensures AtSeparator(files, sep, k, q) == AtSeparator(files, sep, k, p) + sep[p..q] <= Joined(files, sep)
    ensures p < q ==> AtSeparator(files, sep, k, p) != Joined(files, sep)
    ensures Labelled(files, sep, names, Chunk(sep[p..q], |AtSeparator(files, sep, k, p)|, None))
  {
    FileInside(files, sep, k);
    assert sep[..q] == sep[..p] + sep[p..q];
    assert InSeparator(files, sep, k, |AtSeparator(files, sep, k, p)|, q - p);
  }

  // --------------------------------------------------------------- many paths

  class MultiPathChunkSource {
    const files: seq<Bytes>
    const sourceNames: seq<string>
    const separator: Bytes
    const materializedLimit: nat
    var current: FileChunkSource?
    var currentSource: Option<SourceLabel>
    var index: nat
    var sourceBaseOffset: nat
    var separatorPending: bool
    var separatorPos: nat
    var fullView: Option<Bytes>

    ghost predicate Valid()
      reads this, current
    {
      && index <= |files|
      && (fullView.Some? ==> fullView.value == Joined(files, separator) && |fullView.value| <= materializedLimit)
      && (current != null ==>
            && current.Valid() && !separatorPending && index > 0 && current.content == files[index - 1]
            && sourceBaseOffset == |Lead(files, separator, index - 1)|
            && currentSource == LabelOf(index - 1))
      && (separatorPending ==> 0 < index < |files| && separatorPos < |separator|)
      && (current == null ==> sourceBaseOffset == |Delivered()|)
    }

    function LabelOf(k: nat): Option<SourceLabel> {
      if k < |sourceNames| then Some(SourceLabel(sourceNames[k], k)) else None
    }

    /** The bytes handed out since the last reset. */
    ghost function Delivered(): Bytes
      requires index <= |files|
      requires current != null ==> index > 0 && current.pos <= |files[index - 1]|
      requires current == null && separatorPending ==> 0 < index && separatorPos <= |separator|
      reads this, current
    {
      if current != null then AtFile(files, separator, index - 1, current.pos)
      else if separatorPending then AtSeparator(files, separator, index - 1, separatorPos)
      else if index == |files| then Joined(files, separator)
      else Lead(files, separator, index)
    }

    constructor (paths: seq<Bytes>, names: seq<string>, sep: Bytes, limit: nat)
      ensures Valid() && files == paths && sourceNames == names && separator == sep && materializedLimit == limit
      ensures Delivered() == [] && current == null
    {
      files, sourceNames, separator, materializedLimit := paths, names, sep, limit;
      current, currentSource, index, sourceBaseOffset := null, None, 0, 0;
      separatorPending, separatorPos, fullView := false, 0, None;
    }

    method Reset()
      modifies this
      ensures Valid() && Delivered() == [] && current == null
    {
      current, currentSource, index, sourceBaseOffset := null, None, 0, 0;
      separatorPending, separatorPos, fullView := false, 0, None;
    }

    /** What one successful call hands out: the next bytes of the joined stream, at their offset. */
    ghost predicate Handed(before: Bytes, maxBytes: int, c: Chunk)
      requires Valid()
      reads this, current
    {
      && Delivered() == before + c.data <= Joined(files, separator)
      && |c.data| <= maxBytes
      && c.baseOffset == |before|
      && (c.data == [] <==> before == Joined(files, separator))
      && (c.data != [] ==> Labelled(files, separator, sourceNames, c))
    }

    /** The next bytes of the stream; only an offset beyond the address space can fail a valid request. */
    method NextChunk(maxBytes: int) returns (r: Reply<Chunk>)
      requires Valid()
      modifies this, current
      ensures current == null || current == old(current) || fresh(current)
      ensures !ValidRequest(maxBytes) ==> r == Err(InvalidRequest) && Valid() && Delivered() == old(Delivered())
      ensures ValidRequest(maxBytes) && |Joined(files, separator)| <= SIZE_MAX ==> r.Ok?
      ensures r.Ok? ==> Valid() && Handed(old(Delivered()), maxBytes, r.value)
      ensures fullView == old(fullView)
    {
      hide AtFile, AtSeparator, Joined, Labelled;
      if !ValidRequest(maxBytes) { return Err(InvalidRequest); }
      while true
        invariant Valid() && Delivered() == old(Delivered()) && fullView == old(fullView)
        invariant current == null || current == old(current) || fresh(current)
        decreases 2 * (|files| - index) + if current == null then 0 else 1
      {
        if separatorPending {
          r := TakeSeparatorChunk(maxBytes);
          return;
        }
        if current == null {
          if index >= |files| {
            return Ok(Chunk([], sourceBaseOffset, None));
          }
          OpenNext();
        }
        var reply := ReadCurrent(maxBytes);
        if reply.Some? { return reply.value; }
      }
    }

    /** Starts on the next path. */
    method OpenNext()
      requires Valid() && current == null && !separatorPending && index < |files|
      modifies this
      ensures Valid() && Delivered() == old(Delivered()) && fresh(current) && index == old(index) + 1
      ensures fullView == old(fullView) && !separatorPending
    {
      hide AtFile, AtSeparator, Joined;
      FileStarts(files, separator, index);
      currentSource := LabelOf(index);
      current := new FileChunkSource(files[index]);
      index := index + 1;
    }

    /** Reads from the current path; nothing is returned when it is used up. */
    method ReadCurrent(maxBytes: int) returns (r: Option<Reply<Chunk>>)
      requires Valid() && current != null && ValidRequest(maxBytes)
      modifies this, current
      ensures fullView == old(fullView) && index == old(index)
      ensures r == None ==> Valid() && Delivered() == old(Delivered()) && current == null
      ensures r.Some? ==> current == null || current == old(current)
      ensures r.Some? && |Joined(files, separator)| <= SIZE_MAX ==> r.value.Ok?
      ensures r.Some? && r.value.Ok? ==> Valid() && Handed(old(Delivered()), maxBytes, r.value.value)
    {
      hide AtFile, AtSeparator, Joined, Labelled;
      ghost var p := current.pos;
      var reply := current.NextChunk(maxBytes);
      var chunk := reply.value;
      FileAdvances(files, separator, sourceNames, index - 1, p, current.pos, currentSource);
      if chunk.data != [] {
        if chunk.baseOffset > SIZE_MAX - sourceBaseOffset { return Some(Err(OutOfMemory)); }
        return Some(Ok(Chunk(chunk.data, chunk.baseOffset + sourceBaseOffset, currentSource)));
      }
      FileEnds(files, separator, index - 1);
      if chunk.baseOffset > SIZE_MAX - sourceBaseOffset { return Some(Err(OutOfMemory)); }
      sourceBaseOffset := sourceBaseOffset + chunk.baseOffset;
      current := null;
      if index < |files| && separator != [] {
        separatorPending, separatorPos := true, 0;
      }
      return None;
    }

    /** The next slice of the pending separator. */
    method TakeSeparatorChunk(maxBytes: int) returns (r: Reply<Chunk>)
      requires Valid() && separatorPending && ValidRequest(maxBytes)
      modifies this
      ensures |Joined(files, separator)| <= SIZE_MAX ==> r.Ok?
      ensures r.Ok? ==> Valid() && Handed(old(Delivered()), maxBytes, r.value)
      ensures current == null && fullView == old(fullView)
    {
      hide AtFile, AtSeparator, Joined, Labelled;
      var available := |separator| - separatorPos;
      var take := if available < maxBytes then available else maxBytes;
      SeparatorAdvances(files, separator, sourceNames, index - 1, separatorPos, separatorPos + take);
      SeparatorEnds(files, separator, index - 1);
      if take > SIZE_MAX - sourceBaseOffset { return Err(OutOfMemory); }
      r := Ok(Chunk(separator[separatorPos..separatorPos + take], sourceBaseOffset, None));
      separatorPos := separatorPos + take;
      sourceBaseOffset := sourceBaseOffset + take;
      if separatorPos == |separator| {
        separatorPending, separatorPos := false, 0;
      }
    }

    /** The whole stream at once, exactly when its length is within the limit. */
    method View() returns (r: Reply<Chunk>)
      requires Valid()
      modifies this`fullView
      ensures Valid() && Delivered() == old(Delivered())
      ensures r.Ok? <==> |Joined(files, separator)| <= materializedLimit
      ensures r.Ok? ==> r.value == Chunk(Joined(files, separator), 0, None)
    {
      hide Joined, Lead, AtFile, AtSeparator;
      if fullView == None {
        var bytes := Materialize();
        if bytes == None { return Err(OutOfMemory); }
        fullView := bytes;
      }
      return Ok(Chunk(fullView.value, 0, None));
    }

    /** Appends every file and separator while the limit allows. */
    method Materialize() returns (r: Option<Bytes>)
      ensures r == if |Joined(files, separator)| <= materializedLimit then Some(Joined(files, separator)) else None
    {
      hide AtFile, AtSeparator, Joined;
      var bytes := [];
      for k := 0 to |files|
        invariant bytes == if k == 0 then [] else AtFile(files, separator, k - 1, |files[k - 1]|)
        invariant |bytes| <= materializedLimit
      {
        var source := new FileChunkSource(files[k]);
        FileStarts(files, separator, k);
        if k > 0 {
          FileInside(files, separator, k - 1);
          FileEnds(files, separator, k - 1);
          SeparatorEnds(files, separator, k - 1);
          SeparatorAdvances(files, separator, [], k - 1, 0, |separator|);
          assert separator[0..|separator|] == separator;
          if !GrowthFits(|bytes|, |separator|, materializedLimit) { return None; }
          bytes := bytes + separator;
        }
        while true
          invariant source.Valid() && source.content == files[k]
          invariant bytes == AtFile(files, separator, k, source.pos)
          invariant |bytes| <= materializedLimit
          decreases |files[k]| - source.pos
        {
          ghost var p := source.pos;
          var reply := source.NextChunk(MATERIALIZATION_READ_BYTES);
          var chunk := reply.value;
          FileAdvances(files, separator, [], k, p, source.pos, None);
          if chunk.data == [] { break; }
          FileInside(files, separator, k);
          FileAdvances(files, separator, [], k, source.pos, |files[k]|, None);
          if !GrowthFits(|bytes|, |chunk.data|, materializedLimit) { return None; }
          bytes := bytes + chunk.data;
        }
      }
      if files != [] {
        FileEnds(files, separator, |files| - 1);
      } else {
        assert Joined(files, separator) == [] by { NothingJoined(separator); }
      }
      return Some(bytes);
    }
  }

  lemma {:induction false} NothingJoined(sep: Bytes)
    ensures Joined([], sep) == []
  {
  }

  // -------------------------------------------------------------- whole reads

  function Data(chunks: seq<Chunk>): Bytes {
    if chunks == [] then [] else Data(chunks[..|chunks| - 1]) + chunks[|chunks| - 1].data
  }

  /** Call `i` of a read: its offset, its label, and whether it is empty. */
  ghost predicate Call(files: seq<Bytes>, sep: Bytes, names: seq<string>, sizes: seq<int>, chunks: seq<Chunk>, i: nat)
    requires i < |chunks| == |sizes|
  {
    && |chunks[i].data| <= sizes[i]
    && Data(chunks[..i]) + chunks[i].data <= Joined(files, sep)
    && chunks[i].baseOffset == |Data(chunks[..i])|
    && (chunks[i].data == [] <==> Data(chunks[..i]) == Joined(files, sep))
    && (chunks[i].data != [] ==> Labelled(files, sep, names, chunks[i]))
  }

  ghost predicate Transcript(files: seq<Bytes>, sep: Bytes, names: seq<string>, sizes: seq<int>, chunks: seq<Chunk>) {
    && |chunks| == |sizes|
    && forall i :: 0 <= i < |chunks| ==> Call(files, sep, names, sizes, chunks, i)
  }

  lemma {:induction false} CallExtends(files: seq<Bytes>, sep: Bytes, names: seq<string>, sizes: seq<int>,
                                       chunks: seq<Chunk>, size: int, c: Chunk)
    requires Transcript(files, sep, names, sizes, chunks)
    requires Data(chunks) + c.data <= Joined(files, sep)
    requires |c.data| <= size && c.baseOffset == |Data(chunks)|
             && (c.data == [] <==> Data(chunks) == Joined(files, sep))
    requires c.data != [] ==> Labelled(files, sep, names, c)
    ensures Transcript(files, sep, names, sizes + [size], chunks + [c])
    ensures Data(chunks + [c]) == Data(chunks) + c.data
  {
    var all := chunks + [c];
    assert all[..|chunks|] == chunks;
    assert Data(all) == Data(chunks) + c.data;
    hide Joined, Labelled, Data;
    forall i | 0 <= i < |all| ensures Call(files, sep, names, sizes + [size], all, i) {
      if i < |chunks| {
        assert all[..i] == chunks[..i];
        assert Call(files, sep, names, sizes, chunks, i);
      }
    }
  }

  /** Reads a fresh source with any valid request sizes. */
  method Pull(src: MultiPathChunkSource, sizes: seq<int>) returns (chunks: seq<Chunk>)
    requires src.Valid() && src.Delivered() == [] && src.current == null
    requires |Joined(src.files, src.separator)| <= SIZE_MAX
    requires forall i :: 0 <= i < |sizes| ==> ValidRequest(sizes[i])
    modifies src
    ensures Transcript(src.files, src.separator, src.sourceNames, sizes, chunks)
  {
    hide Transcript, Joined, Labelled, AtFile, AtSeparator, Lead, Data;
    chunks := [];
    assert sizes[..0] == [];
    NothingPulled(src.files, src.separator, src.sourceNames);
    for i := 0 to |sizes|
      invariant src.Valid() && src.Delivered() == Data(chunks)
      invariant src.current == null || fresh(src.current)
      invariant Transcript(src.files, src.separator, src.sourceNames, sizes[..i], chunks)
    {
      var r := src.NextChunk(sizes[i]);
      CallExtends(src.files, src.separator, src.sourceNames, sizes[..i], chunks, sizes[i], r.value);
      chunks := chunks + [r.value];
      assert sizes[..i + 1] == sizes[..i] + [sizes[i]];
    }
    assert sizes[..|sizes|] == sizes;
  }

  lemma {:induction false} NothingPulled(files: seq<Bytes>, sep: Bytes, names: seq<string>)
    ensures Transcript(files, sep, names, [], []) && Data([]) == []
  {
  }

  lemma {:induction false} DataNext(chunks: seq<Chunk>, k: nat)
    requires k < |chunks|
    ensures Data(chunks[..k + 1]) == Data(chunks[..k]) + chunks[k].data
  {
    assert chunks[..k + 1][..k] == chunks[..k];
  }

  /** The chunks before an empty one make up the joined stream, and every later one is empty too. */
  lemma {:induction false} StreamIsJoined(files: seq<Bytes>, sep: Bytes, names: seq<string>, sizes: seq<int>,
                                          chunks: seq<Chunk>, e: nat, j: nat)
    requires Transcript(files, sep, names, sizes, chunks)
    requires e <= j < |chunks| && chunks[e].data == []
    ensures Data(chunks[..e]) == Joined(files, sep)
    ensures chunks[j].data == [] && chunks[j].baseOffset == |Joined(files, sep)|
    decreases j
  {
    hide Joined, Labelled, Data;
    assert Call(files, sep, names, sizes, chunks, e) && Call(files, sep, names, sizes, chunks, j);
    if e < j {
      StreamIsJoined(files, sep, names, sizes, chunks, e, j - 1);
      assert Call(files, sep, names, sizes, chunks, j - 1);
      DataNext(chunks, j - 1);
      assert Data(chunks[..j]) == Data(chunks[..j - 1]);
    }
  }

  /** More calls than there are bytes reach the end. */
  lemma {:induction false} StreamEnds(files: seq<Bytes>, sep: Bytes, names: seq<string>, sizes: seq<int>,
                                      chunks: seq<Chunk>)
    requires Transcript(files, sep, names, sizes, chunks)
    requires |Joined(files, sep)| < |chunks|
    ensures exists e :: 0 <= e < |chunks| && chunks[e].data == []
  {
    hide Joined, Labelled, Data;
    var n := |chunks| - 1;
    assert Call(files, sep, names, sizes, chunks, n);
    DataNext(chunks, n);
    assert chunks[..n + 1] == chunks;
    if forall i :: 0 <= i < |chunks| ==> chunks[i].data != [] { AllFull(chunks); }
  }

  lemma {:induction false} AllFull(chunks: seq<Chunk>)
    requires forall i :: 0 <= i < |chunks| ==> chunks[i].data != []
    ensures |Data(chunks)| >= |chunks|
  {
    if chunks != [] { AllFull(chunks[..|chunks| - 1]); }
  }
}
