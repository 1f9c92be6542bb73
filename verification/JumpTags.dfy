/** Data that one image leaves in RAM for the next: jump tags below the jump data (common/system.c). */
module JumpTags {
  import opened Wrappers
  import opened Bits
  import opened Memory
  import opened Words

  const JUMP_DATA_MAGIC: Word := 0x706d754a
  const JUMP_DATA_VERSION: Word := 3
  const JUMP_DATA_SIZE := 24
  const JUMP_DATA_SIZE_V1 := 12
  const JUMP_DATA_SIZE_V2 := 16
  const RESET_FLAG_SYSJUMP := 0x400

  const EC_SUCCESS := 0
  const EC_ERROR_UNKNOWN := 1
  const EC_ERROR_INVAL := 5

  const TAG_HEADER := 4

  /** A tag as it was added: identifier, version and data. */
  datatype Tag = Tag(id: int, version: Byte, data: seq<Byte>)

  /** The next multiple of four. */
  function RoundUp4(n: nat): (r: nat)
    ensures n <= r < n + 4
  {
    if n == 0 then 0 else if n <= 4 then 4 else 4 + RoundUp4(n - 4)
  }

  function TagSize(tag: Tag): nat { TAG_HEADER + RoundUp4(|tag.data|) }

  /** The tag whose header is at t. */
  ghost function TagAt(s: seq<Byte>, t: nat): Tag
    requires t + TAG_HEADER <= |s| && t + TAG_HEADER + s[t + 2] <= |s|
  {
    Tag(s[t] as int + 256 * s[t + 1] as int, s[t + 3], s[t + TAG_HEADER..t + TAG_HEADER + s[t + 2]])
  }

  /** The tags between t and at, the latest addition first, when the bytes there are tags. */
  ghost function Parse(s: seq<Byte>, t: nat, at: nat): Option<seq<Tag>>
    requires t <= at <= |s|
    decreases at - t
  {
    if t == at then Some([])
    else if at - t < TAG_HEADER || at - t < TAG_HEADER + RoundUp4(s[t + 2]) then None
    else
      match Parse(s, t + TAG_HEADER + RoundUp4(s[t + 2]), at)
      case None => None
      case Some(rest) => Some([TagAt(s, t)] + rest)
  }

  lemma {:induction false} ParseStep(s: seq<Byte>, t: nat, at: nat, tags: seq<Tag>)
    requires t < at <= |s| && Parse(s, t, at) == Some(tags)
    ensures tags != [] && t + TAG_HEADER + s[t + 2] <= |s| && TagAt(s, t) == tags[0]
    ensures var next := t + TAG_HEADER + RoundUp4(s[t + 2]);
            next <= at && Parse(s, next, at) == Some(tags[1..])
  {
    var next := t + TAG_HEADER + RoundUp4(s[t + 2]);
    var rest := Parse(s, next, at).value;
    assert ([TagAt(s, t)] + rest)[1..] == rest;
  }

  /** The same bytes elsewhere are the same tags. */
  lemma {:induction false} ParseElsewhere(s: seq<Byte>, t: nat, at: nat, r: seq<Byte>, u: nat, to: nat)
    requires t <= at <= |s| && u <= to <= |r| && s[t..at] == r[u..to]
    ensures Parse(s, t, at) == Parse(r, u, to)
    decreases at - t
  {
    assert at - t == |s[t..at]| == |r[u..to]| == to - u;
    if at - t >= TAG_HEADER {
      assert s[t + 2] == s[t..at][2] == r[u..to][2] == r[u + 2];
      var n := TAG_HEADER + RoundUp4(s[t + 2]);
      if at - t >= n {
        SameTag(s, t, at, r, u, to);
        SliceAt(s, t, at, r, u, to, n);
        ParseElsewhere(s, t + n, at, r, u + n, to);
      }
    }
  }

  lemma {:induction false} SliceAt<T>(s: seq<T>, t: nat, at: nat, r: seq<T>, u: nat, to: nat, n: nat)
    requires t + n <= at <= |s| && u + n <= to <= |r| && s[t..at] == r[u..to]
    ensures s[t + n..at] == r[u + n..to]
  {
    assert s[t + n..at] == s[t..at][n..] && r[u + n..to] == r[u..to][n..];
  }

  lemma {:induction false} SameTag(s: seq<Byte>, t: nat, at: nat, r: seq<Byte>, u: nat, to: nat)
    requires t + TAG_HEADER <= at <= |s| && u <= to <= |r| && s[t..at] == r[u..to] && to - u == at - t
    requires t + TAG_HEADER + s[t + 2] <= at
    ensures r[u + 2] == s[t + 2] && TagAt(s, t) == TagAt(r, u)
  {
    forall k | u <= k < to ensures r[k] == s[k - u + t] {
      assert r[u..to][k - u] == s[t..at][k - u];
    }
    var n := TAG_HEADER + s[t + 2];
    assert r[u + 2] == s[t + 2];
    assert r[u + TAG_HEADER..u + n] == s[t + TAG_HEADER..t + n];
  }

  /** The latest addition with an identifier. */
  ghost function Latest(tags: seq<Tag>, id: int): Option<Tag> {
    if tags == [] then None else if tags[0].id == id then Some(tags[0]) else Latest(tags[1..], id)
  }

  lemma {:induction false} LatestIsNew(tag: Tag, tags: seq<Tag>, id: int)
    ensures Latest([tag] + tags, id) == if id == tag.id then Some(tag) else Latest(tags, id)
  {
    assert ([tag] + tags)[1..] == tags;
  }

  function Header(tag: Tag): seq<Byte>
    requires 0 <= tag.id < 0x1_0000 && |tag.data| < 256
  {
    [tag.id % 256, tag.id / 256, |tag.data|, tag.version]
  }

  /** Writing header and data at t puts the tag in front of those above its padding. */
  lemma {:induction false} Placed(before: seq<Byte>, after: seq<Byte>, t: nat, below: nat, at: nat, tag: Tag,
                                  tags: seq<Tag>)
    requires 0 <= tag.id < 0x1_0000 && |tag.data| < 256 && below == t + TagSize(tag) && below <= at <= |before|
    requires after == before[..t] + (Header(tag) + tag.data) + before[t + TAG_HEADER + |tag.data|..]
    requires Parse(before, below, at) == Some(tags)
    ensures Parse(after, t, at) == Some([tag] + tags) && after[at..] == before[at..]
  {
    var n := TAG_HEADER + |tag.data|;
    WrittenTag(before[..t], tag, before[t + n..], after);
    ParseAbove(before, after, t + n, below, at);
    ParseFront(after, t, below, at, tag, tags);
  }

  lemma {:induction false} ParseFront(s: seq<Byte>, t: nat, below: nat, at: nat, tag: Tag, tags: seq<Tag>)
    requires below == t + TagSize(tag) && below <= at <= |s|
    requires s[t + 2] == |tag.data| && TagAt(s, t) == tag && Parse(s, below, at) == Some(tags)
    ensures Parse(s, t, at) == Some([tag] + tags)
  {
  }

  lemma {:induction false} ParseAbove(before: seq<Byte>, after: seq<Byte>, x: nat, below: nat, at: nat)
    requires |before| == |after| && x <= below <= at <= |before| && after[x..] == before[x..]
    ensures Parse(after, below, at) == Parse(before, below, at) && after[at..] == before[at..]
  {
    SameTail(before, after, x, below, at);
    ParseElsewhere(before, below, at, after, below, at);
  }

  lemma {:induction false} ParseBelow(before: seq<Byte>, after: seq<Byte>, t: nat, at: nat)
    requires |before| == |after| && t <= at <= |before| && after[..at] == before[..at]
    ensures Parse(after, t, at) == Parse(before, t, at)
  {
    SlicesBelow(before, after, t, at);
    ParseElsewhere(before, t, at, after, t, at);
  }

  lemma {:induction false} WrittenTag(a: seq<Byte>, tag: Tag, c: seq<Byte>, s: seq<Byte>)
    requires 0 <= tag.id < 0x1_0000 && |tag.data| < 256 && s == a + (Header(tag) + tag.data) + c
    ensures s[|a| + 2] == |tag.data| && TagAt(s, |a|) == tag && s[|a| + TAG_HEADER + |tag.data|..] == c
  {
    var t, h := |a|, Header(tag);
    Middle(a, h + tag.data, c, s);
    assert s[t] == h[0] && s[t + 1] == h[1] && s[t + 2] == h[2] && s[t + 3] == h[3];
    assert s == a + h + tag.data + c;
    Middle(a + h, tag.data, c, s);
  }

  lemma {:induction false} Middle<T>(a: seq<T>, b: seq<T>, c: seq<T>, s: seq<T>)
    requires s == a + b + c
    ensures s[|a|..|a| + |b|] == b && s[|a| + |b|..] == c
  {
  }

  lemma {:induction false} SameTail<T>(a: seq<T>, b: seq<T>, x: nat, y: nat, z: nat)
    requires |a| == |b| && x <= y <= z <= |a| && a[x..] == b[x..]
    ensures a[y..z] == b[y..z] && a[z..] == b[z..]
  {
    forall k | x <= k < |a| ensures a[k] == b[k] {
      assert a[x..][k - x] == b[x..][k - x];
    }
  }

  /** Fields of the jump data, at fixed distances below its end. */
  const MAGIC := 4
  const VERSION := 8
  const RESET_FLAGS := 12
  const JUMP_TAG_TOTAL := 16
  const STRUCT_SIZE := 20

  /** Bytes as a number, lowest first. */
  function LittleEndian(b: seq<Byte>): nat { if b == [] then 0 else b[0] as int + 0x100 * LittleEndian(b[1..]) }

  lemma {:induction false} FourBytes(b: seq<Byte>)
    requires |b| == 4
    ensures LittleEndian(b) == b[0] as int + 0x100 * b[1] as int + 0x1_0000 * b[2] as int + 0x100_0000 * b[3] as int
  {
    assert b[1..][1..] == b[2..] && b[2..][1..] == b[3..] && b[3..][1..] == [];
    assert LittleEndian(b[3..]) == b[3];
    assert LittleEndian(b[2..]) == b[2] as int + 0x100 * b[3] as int;
  }

  function WordAt(s: seq<Byte>, a: nat): Word
    requires a + 4 <= |s|
  {
    FourBytes(s[a..a + 4]);
    LittleEndian(s[a..a + 4])
  }

  lemma BytesOf(value: Word)
    ensures value % 0x100 + 0x100 * (value / 0x100 % 0x100) + 0x1_0000 * (value / 0x1_0000 % 0x100)
          + 0x100_0000 * (value / 0x100_0000) == value
  {
    assert value == value % 0x100 + 0x100 * (value / 0x100);
    assert value / 0x100 == value / 0x100 % 0x100 + 0x100 * (value / 0x1_0000);
    assert value / 0x1_0000 == value / 0x1_0000 % 0x100 + 0x100 * (value / 0x100_0000);
  }

  lemma {:induction false} SameAbove(before: seq<Byte>, after: seq<Byte>, at: nat, a: nat)
    requires |before| == |after| && at <= a && a + 4 <= |before| && after[at..] == before[at..]
    ensures WordAt(after, a) == WordAt(before, a)
  {
    SameTail(before, after, at, a, a + 4);
  }

  lemma {:induction false} SlicesBelow<T>(a: seq<T>, b: seq<T>, x: nat, y: nat)
    requires |a| == |b| && x <= y <= |a| && a[..y] == b[..y]
    ensures a[x..y] == b[x..y]
  {
    assert a[x..y] == a[..y][x..] && b[x..y] == b[..y][x..];
  }

  lemma {:induction false} MovedTags(before: seq<Byte>, after: seq<Byte>, d: nat, src: nat, total: nat)
    requires d + total <= |before| && src + total <= |before| && after == Moved(before, d, src, total)
    ensures Parse(after, d, d + total) == Parse(before, src, src + total) && after[d + total..] == before[d + total..]
  {
    Middle(before[..d], before[src..src + total], before[d + total..], after);
    ParseElsewhere(before, src, src + total, after, d, d + total);
  }

  datatype Answer = Missing | Found(version: Byte, size: Byte, offset: nat)

  class Ram {
    const bytes: array<Byte>
    /** End of the jump data: end of RAM, or the start of the panic data. */
    const end: nat
    /** Start of the jump data in the layout of the running image. */
    var jdata: nat

    ghost predicate Shaped()
      reads this
    {
      end <= bytes.Length < 0x8000_0000 && jdata + JUMP_DATA_SIZE == end
    }

    /** The tags are right below at, as many bytes as the jump data says. */
    ghost predicate TagsBelow(at: nat, total: nat, tags: seq<Tag>)
      reads bytes
    {
      total <= at <= bytes.Length && Parse(bytes[..], at - total, at) == Some(tags)
    }

    ghost predicate Valid(tags: seq<Tag>)
      reads this, bytes
    {
      Shaped() && TagsBelow(jdata, Field(JUMP_TAG_TOTAL), tags)
    }

    function Field(below: nat): Word
      requires 4 <= below <= end <= bytes.Length
      reads bytes
    {
      WordAt(bytes[..], end - below)
    }

    method SetField(below: nat, value: Word)
      requires 4 <= below <= end <= bytes.Length
      modifies bytes
      ensures Field(below) == value
      ensures bytes[..end - below] == old(bytes[..end - below])
      ensures bytes[end - below + 4..] == old(bytes[end - below + 4..])
      ensures below <= JUMP_DATA_SIZE <= end ==> bytes[..end - JUMP_DATA_SIZE] == old(bytes[..end - JUMP_DATA_SIZE])
      ensures forall f {:trigger Field(f)} :: 4 <= f <= end && (f >= below + 4 || f + 4 <= below) ==> Field(f) == old(Field(f))
    {
      var a := end - below;
      ghost var before := bytes[..];
      bytes[a], bytes[a + 1], bytes[a + 2], bytes[a + 3] :=
        value % 0x100, value / 0x100 % 0x100, value / 0x1_0000 % 0x100, value / 0x100_0000;
      FourBytes(bytes[..][a..a + 4]);
      BytesOf(value);
      forall f | 4 <= f <= end && (f >= below + 4 || f + 4 <= below) ensures Field(f) == old(Field(f)) {
        assert bytes[..][end - f..end - f + 4] == before[end - f..end - f + 4];
      }
    }

    /** An image was jumped to: jump data with a good magic number, and no reset. */
    predicate Jumped(resetFlags: Word)
      requires JUMP_DATA_SIZE <= end <= bytes.Length
      reads bytes
    {
      Field(MAGIC) == JUMP_DATA_MAGIC && 1 <= Field(VERSION) < 0x8000_0000 && resetFlags == 0
    }

    /** Size of the jump data as the previous image laid it out. */
    function OldSize(): Word
      requires JUMP_DATA_SIZE <= end <= bytes.Length
      reads bytes
    {
      if Field(VERSION) == 1 then JUMP_DATA_SIZE_V1
      else if Field(VERSION) == 2 then JUMP_DATA_SIZE_V2
      else Field(STRUCT_SIZE)
    }

    /** The previous image left these tags below its jump data, and there is room for them below the new one. */
    ghost predicate LeftBehind(tags: seq<Tag>)
      requires JUMP_DATA_SIZE <= end <= bytes.Length
      reads bytes
    {
      if Field(VERSION) == 1 then tags == []
      else
        && JUMP_DATA_SIZE_V2 <= OldSize() <= end && TagsBelow(end - OldSize(), Field(JUMP_TAG_TOTAL), tags)
        && JUMP_DATA_SIZE + Field(JUMP_TAG_TOTAL) <= end
    }

    /** This image has filled in the jump data for the next one. */
    predicate ReadyToJump()
      requires Shaped()
      reads this, bytes
    {
      && Field(MAGIC) == JUMP_DATA_MAGIC && Field(VERSION) == JUMP_DATA_VERSION
      && Field(STRUCT_SIZE) == JUMP_DATA_SIZE
    }

    /** Fill in the data preserved between jumps; hooks may then add tags. */
    method PrepareJump(resetFlags: Word)
      requires Shaped()
      modifies bytes
      ensures ReadyToJump() && Valid([]) && Field(RESET_FLAGS) == resetFlags
    {
      bytes[jdata] := 0;
      SetField(MAGIC, JUMP_DATA_MAGIC);
      SetField(VERSION, JUMP_DATA_VERSION);
      SetField(RESET_FLAGS, resetFlags);
      SetField(JUMP_TAG_TOTAL, 0);
      SetField(STRUCT_SIZE, JUMP_DATA_SIZE);
    }

    /** What this image leaves behind is what the next one expects. */
    lemma ReadyMeansLeftBehind(tags: seq<Tag>)
      requires Valid(tags) && ReadyToJump()
      ensures Jumped(0) && LeftBehind(tags)
    {
    }

    /** Find the jump data of the previous image, and move its tags to where this image looks for them. */
    method PreInit(resetFlags: Word, ghost tags: seq<Tag>) returns (flags: int)
      requires JUMP_DATA_SIZE <= end <= bytes.Length < 0x8000_0000
      requires Jumped(resetFlags) ==> LeftBehind(tags)
      modifies this`jdata, bytes
      ensures jdata == end - JUMP_DATA_SIZE && Field(MAGIC) == 0
      ensures flags == if old(Jumped(resetFlags)) then Or(old(Field(RESET_FLAGS)), RESET_FLAG_SYSJUMP) else resetFlags
      ensures if old(Jumped(resetFlags)) then Valid(tags) && Field(STRUCT_SIZE) == JUMP_DATA_SIZE
              else Valid([]) && Field(JUMP_TAG_TOTAL) == 0
    {
      jdata := end - JUMP_DATA_SIZE;
      flags := resetFlags;
      if Jumped(resetFlags) {
        flags := Or(Field(RESET_FLAGS), RESET_FLAG_SYSJUMP);
        MoveTags(tags);
        InitializeNewFields(tags);
      } else {
        ClearJumpData();
      }
    }

    /** Shift the tags when the size of the jump data has changed. */
    method MoveTags(ghost tags: seq<Tag>)
      requires Shaped() && jdata == end - JUMP_DATA_SIZE && LeftBehind(tags) && Field(VERSION) >= 1
      modifies bytes
      ensures Field(VERSION) == old(Field(VERSION))
      ensures if Field(VERSION) == 1 then tags == [] else Valid(tags)
    {
      var version := Field(VERSION);
      var delta := if version == 1 then 0
                   else if version == 2 then JUMP_DATA_SIZE - JUMP_DATA_SIZE_V2
                   else JUMP_DATA_SIZE - Field(STRUCT_SIZE);
      var total := Field(JUMP_TAG_TOTAL);
      if delta != 0 && total != 0 {
        ShiftTags(UsableRamEnd(), delta, total);
      } else if version != 1 {
        InPlace(tags);
      }
    }

    lemma InPlace(tags: seq<Tag>)
      requires Shaped() && LeftBehind(tags) && Field(VERSION) != 1
      requires OldSize() == JUMP_DATA_SIZE || Field(JUMP_TAG_TOTAL) == 0
      ensures Valid(tags)
    {
      if Field(JUMP_TAG_TOTAL) == 0 { assert tags == []; }
    }

    method ShiftTags(d: nat, delta: int, total: nat)
      requires Shaped() && d + total == jdata && 0 <= d + delta && d + delta + total <= bytes.Length
      modifies bytes
      ensures Field(VERSION) == old(Field(VERSION)) && Field(JUMP_TAG_TOTAL) == old(Field(JUMP_TAG_TOTAL))
      ensures Parse(bytes[..], d, jdata) == Parse(old(bytes[..]), d + delta, d + delta + total)
    {
      ghost var before := bytes[..];
      MemMove(bytes, d, d + delta, total);
      MovedTags(before, bytes[..], d, d + delta, total);
      SameAbove(before, bytes[..], jdata, end - JUMP_TAG_TOTAL);
      SameAbove(before, bytes[..], jdata, end - VERSION);
    }

    method InitializeNewFields(ghost tags: seq<Tag>)
      requires Shaped() && Field(VERSION) >= 1 && (if Field(VERSION) == 1 then tags == [] else Valid(tags))
      modifies bytes
      ensures Valid(tags) && Field(STRUCT_SIZE) == JUMP_DATA_SIZE && Field(MAGIC) == 0
    {
      var version := Field(VERSION);
      if version < 2 { SetOther(JUMP_TAG_TOTAL, 0); }
      if version < 3 { ClearReserved(); }
      SetOther(STRUCT_SIZE, JUMP_DATA_SIZE);
      SetOther(MAGIC, 0);
    }

    /** Set a field; the tags stay where they are. */
    method SetOther(below: nat, value: Word)
      requires Shaped() && 4 <= below <= STRUCT_SIZE && below % 4 == 0
      modifies bytes
      ensures Field(below) == value && SameTags(old(bytes[..]), bytes[..])
      ensures forall f {:trigger Field(f)} :: 4 <= f <= STRUCT_SIZE && f % 4 == 0 && f != below ==> Field(f) == old(Field(f))
    {
      ghost var before := bytes[..];
      SetField(below, value);
      forall t: nat | t <= jdata ensures Parse(before, t, jdata) == Parse(bytes[..], t, jdata) {
        ParseBelow(before, bytes[..], t, jdata);
      }
    }

    /** Whatever tags end at the jump data are the same before and after. */
    ghost predicate SameTags(before: seq<Byte>, after: seq<Byte>)
      requires jdata <= |before| == |after|
      reads this
    {
      forall t: nat :: t <= jdata ==> Parse(before, t, jdata) == Parse(after, t, jdata)
    }

    method ClearReserved()
      requires Shaped()
      modifies bytes
      ensures SameTags(old(bytes[..]), bytes[..])
      ensures forall f {:trigger Field(f)} :: 4 <= f <= STRUCT_SIZE ==> Field(f) == old(Field(f))
    {
      ghost var before := bytes[..];
      bytes[jdata] := 0;
      forall t: nat | t <= jdata ensures Parse(before, t, jdata) == Parse(bytes[..], t, jdata) {
        ParseBelow(before, bytes[..], t, jdata);
      }
    }

    /** Clear the whole jump data. */
    method ClearJumpData()
      requires Shaped()
      modifies bytes
      ensures Valid([]) && Field(JUMP_TAG_TOTAL) == 0 && Field(MAGIC) == 0
    {
      var i := 0;
      while i < JUMP_DATA_SIZE
        invariant 0 <= i <= JUMP_DATA_SIZE && forall k :: jdata <= k < jdata + i ==> bytes[k] == 0
      {
        bytes[jdata + i] := 0;
        i := i + 1;
      }
      FourBytes(bytes[..][end - JUMP_TAG_TOTAL..end - JUMP_TAG_TOTAL + 4]);
      FourBytes(bytes[..][end - MAGIC..end - MAGIC + 4]);
    }

    function UsableRamEnd(): int
      requires Shaped()
      reads this, bytes
    {
      jdata - Field(JUMP_TAG_TOTAL)
    }

    /** Put a tag below the others. */
    method AddJumpTag(tag: nat, version: int, data: seq<Byte>, ghost tags: seq<Tag>) returns (error: int)
      requires Valid(tags) && tag < 0x1_0000
      requires |data| <= 255 ==> TAG_HEADER + RoundUp4(|data|) <= UsableRamEnd()
      modifies bytes
      ensures old(ReadyToJump()) ==> ReadyToJump()
      ensures Field(RESET_FLAGS) == old(Field(RESET_FLAGS))
      ensures if old(Field(MAGIC)) != JUMP_DATA_MAGIC then error == EC_ERROR_UNKNOWN && bytes[..] == old(bytes[..])
              else if |data| > 255 then error == EC_ERROR_INVAL && bytes[..] == old(bytes[..])
              else
                var newTag := Tag(tag, version % 256, data);
                && error == EC_SUCCESS && Valid([newTag] + tags)
                && forall id :: Latest([newTag] + tags, id) == if id == tag then Some(newTag) else Latest(tags, id)
    {
      if Field(MAGIC) != JUMP_DATA_MAGIC { return EC_ERROR_UNKNOWN; }
      if |data| > 255 { return EC_ERROR_INVAL; }
      var newTag := Tag(tag, version % 256, data);
      AddTag(newTag, tags);
      forall id ensures Latest([newTag] + tags, id) == if id == tag then Some(newTag) else Latest(tags, id) {
        LatestIsNew(newTag, tags, id);
      }
      error := EC_SUCCESS;
    }

    method AddTag(tag: Tag, ghost tags: seq<Tag>)
      requires Valid(tags) && 0 <= tag.id < 0x1_0000 && |tag.data| < 256 && TagSize(tag) <= UsableRamEnd()
      modifies bytes
      ensures Valid([tag] + tags)
      ensures forall f {:trigger Field(f)} :: 4 <= f <= JUMP_DATA_SIZE && (f <= JUMP_TAG_TOTAL - 4 || f >= JUMP_TAG_TOTAL + 4) ==>
                Field(f) == old(Field(f))
    {
      ghost var below, before := UsableRamEnd(), bytes[..];
      Grow(RoundUp4(|tag.data|) + TAG_HEADER);
      ParseBelow(before, bytes[..], below, jdata);
      WriteTag(UsableRamEnd(), tag, tags, below);
    }

    /** Make room for a new tag. */
    method Grow(room: nat)
      requires Shaped() && room <= UsableRamEnd() <= jdata
      modifies bytes
      ensures Field(JUMP_TAG_TOTAL) == old(Field(JUMP_TAG_TOTAL)) + room && bytes[..jdata] == old(bytes[..jdata])
      ensures forall f {:trigger Field(f)} :: 4 <= f <= JUMP_DATA_SIZE && (f <= JUMP_TAG_TOTAL - 4 || f >= JUMP_TAG_TOTAL + 4) ==>
                Field(f) == old(Field(f))
    {
      SetField(JUMP_TAG_TOTAL, Field(JUMP_TAG_TOTAL) + room);
      assert bytes[..jdata] == bytes[..end - JUMP_TAG_TOTAL][..jdata];
    }

    method WriteTag(t: nat, tag: Tag, ghost tags: seq<Tag>, ghost below: nat)
      requires Shaped() && 0 <= tag.id < 0x1_0000 && |tag.data| < 256
      requires t == UsableRamEnd() && below == t + TagSize(tag) && below <= jdata && Parse(bytes[..], below, jdata) == Some(tags)
      modifies bytes
      ensures Parse(bytes[..], t, jdata) == Some([tag] + tags)
      ensures forall f {:trigger Field(f)} :: 4 <= f <= JUMP_DATA_SIZE ==> Field(f) == old(Field(f))
    {
      var src := Header(tag) + tag.data;
      ghost var before := bytes[..];
      MemCpy(bytes, t, src);
      Placed(before, bytes[..], t, below, jdata, tag, tags);
      forall f | 4 <= f <= JUMP_DATA_SIZE ensures Field(f) == old(Field(f)) {
        SameAbove(before, bytes[..], jdata, end - f);
      }
    }

    /** Search for a tag: the latest addition with this identifier. */
    method GetJumpTag(tag: nat, ghost tags: seq<Tag>) returns (answer: Answer)
      requires Valid(tags)
      ensures match Latest(tags, tag)
              case None => answer == Missing
              case Some(found) => Describes(bytes[..], answer, found)
    {
      answer := Search(tag, Field(JUMP_TAG_TOTAL), UsableRamEnd(), bytes[..], tags);
    }

    method Search(tag: nat, total: nat, ramEnd: nat, ghost s: seq<Byte>, ghost tags: seq<Tag>) returns (answer: Answer)
      requires s == bytes[..] && ramEnd + total == jdata <= bytes.Length && Parse(s, ramEnd, jdata) == Some(tags)
      ensures match Latest(tags, tag)
              case None => answer == Missing
              case Some(found) => Describes(s, answer, found)
    {
      var used: nat := 0;
      ghost var rest, at := tags, ramEnd;
      while used < total
        invariant used <= total && at == ramEnd + used && Parse(s, at, jdata) == Some(rest)
        invariant Latest(tags, tag) == Latest(rest, tag)
        decreases total - used
      {
        var t := ramEnd + used;
        ParseStep(s, t, jdata, rest);
        FirstTag(s, t, rest[0]);
        at := t + TAG_HEADER + RoundUp4(s[t + 2]);
        used := used + TAG_HEADER + RoundUp4(bytes[t + 2]);
        if bytes[t] as int + 256 * bytes[t + 1] as int == tag {
          return Found(bytes[t + 3], bytes[t + 2], t + TAG_HEADER);
        }
        rest := rest[1..];
      }
      return Missing;
    }

    static lemma FirstTag(s: seq<Byte>, t: nat, first: Tag)
      requires t + TAG_HEADER <= |s| && t + TAG_HEADER + s[t + 2] <= |s| && TagAt(s, t) == first
      ensures first.id == s[t] as int + 256 * s[t + 1] as int
      ensures Describes(s, Found(s[t + 3], s[t + 2], t + TAG_HEADER), first)
    {
    }

    /** An answer gives version, size and place of a tag's data. */
    static ghost predicate Describes(s: seq<Byte>, answer: Answer, tag: Tag) {
      && answer.Found? && answer.version == tag.version && answer.size == |tag.data|
      && answer.offset + answer.size <= |s| && s[answer.offset..answer.offset + answer.size] == tag.data
    }
  }
}
