/**
  The display's flash image registry as the driver keeps it: an
  append-only list of images, each at the address the byte cursor had when
  it was registered, the cursor advancing by two bytes per pixel. Fonts are
  maps from characters to image IDs, one freshly registered image per
  character of the font's character list.
 */
module Memory {
  import opened Wrappers

  /** Where the first registered image lives in the display's flash. */
  const ImageBase: int := 2097152

  /** Width and height in pixels, as the caller gives them. */
  datatype Size = Size(w: int, h: int)

  /** One registry entry: the flash address and the image's size. */
  datatype ImageInfo = ImageInfo(address: int, size: Size)

  /** Bytes an image takes in flash: two per pixel (RGB565). */
  function ByteLen(s: Size): int {
    s.w * s.h * 2
  }

  /** Bytes taken by a run of images. */
  function Total(images: seq<ImageInfo>): int
    decreases |images|
  {
    if images == [] then 0 else Total(images[..|images| - 1]) + ByteLen(images[|images| - 1].size)
  }

  /**
    The registry's layout invariant: the first image sits at `ImageBase`,
    each later one where the one before it ends, and the cursor points just
    past the last one.
   */
  predicate Laid(images: seq<ImageInfo>, offset: int)
    decreases |images|
  {
    if images == [] then offset == ImageBase
    else
      var last := images[|images| - 1];
      Laid(images[..|images| - 1], last.address) && offset == last.address + ByteLen(last.size)
  }

  /** The empty registry is laid out. */
  lemma LaidEmpty()
    ensures Laid([], ImageBase)
  {
  }

  /** Registering an image at the cursor and moving the cursor past it keeps the layout invariant. */
  lemma RegisterKeepsLaid(images: seq<ImageInfo>, offset: int, s: Size)
    requires Laid(images, offset)
    ensures Laid(images + [ImageInfo(offset, s)], offset + ByteLen(s))
  {
    var images' := images + [ImageInfo(offset, s)];
    assert images'[..|images|] == images;
  }

  /**
    In a laid-out registry every image's address is the base plus the bytes
    of all images registered before it, and the cursor is the base plus the
    bytes of all of them.
   */
  lemma {:induction false} LaidAddresses(images: seq<ImageInfo>, offset: int)
    requires Laid(images, offset)
    ensures forall k :: 0 <= k < |images| ==> images[k].address == ImageBase + Total(images[..k])
    ensures offset == ImageBase + Total(images)
    decreases |images|
  {
    if images != [] {
      var n := |images|;
      var init := images[..n - 1];
      LaidAddresses(init, images[n - 1].address);
      forall k | 0 <= k < n
        ensures images[k].address == ImageBase + Total(images[..k])
      {
        if k < n - 1 {
          assert images[..k] == init[..k];
        }
      }
    }
  }

  /** Every image has a non-empty pixel area. */
  predicate AllPositive(images: seq<ImageInfo>) {
    forall k :: 0 <= k < |images| ==> images[k].size.w > 0 && images[k].size.h > 0
  }

  lemma PositiveByteLen(s: Size)
    requires s.w > 0 && s.h > 0
    ensures ByteLen(s) >= 2
  {
    assert s.w * s.h >= 1 by {
      assert s.w * s.h >= s.w * 1;
    }
  }

  /** With non-empty images, a longer prefix takes more bytes: at least the images in between. */
  lemma {:induction false} TotalGrows(images: seq<ImageInfo>, i: nat, j: nat)
    requires AllPositive(images) && i < j <= |images|
    ensures Total(images[..j]) >= Total(images[..i]) + ByteLen(images[i].size)
    decreases j - i
  {
    var pj := images[..j];
    assert pj[..j - 1] == images[..j - 1];
    PositiveByteLen(images[j - 1].size);
    if i < j - 1 {
      TotalGrows(images, i, j - 1);
    }
  }

  /**
    Images of non-empty size never overlap: an earlier image ends at or
    before the address where a later one starts, so addresses strictly
    increase with the image ID.
   */
  lemma Disjoint(images: seq<ImageInfo>, offset: int, i: nat, j: nat)
    requires Laid(images, offset) && AllPositive(images)
    requires i < j < |images|
    ensures images[i].address + ByteLen(images[i].size) <= images[j].address
    ensures images[i].address < images[j].address
  {
    LaidAddresses(images, offset);
    TotalGrows(images, i, j);
    PositiveByteLen(images[i].size);
  }

  /** The cursor never falls behind the end of any non-empty image. */
  lemma CursorPastEnd(images: seq<ImageInfo>, offset: int, i: nat)
    requires Laid(images, offset) && AllPositive(images)
    requires i < |images|
    ensures images[i].address + ByteLen(images[i].size) <= offset
  {
    LaidAddresses(images, offset);
    TotalGrows(images, i, |images|);
    assert images[..|images|] == images;
  }

  /** Bytes taken by `n` images of size `s`. */
  function RunBytes(s: Size, n: nat): int
    decreases n
  {
    if n == 0 then 0 else RunBytes(s, n - 1) + ByteLen(s)
  }

  /** `n` images of size `s` take `n` times the bytes of one. */
  lemma {:induction false} RunBytesIsProduct(s: Size, n: nat)
    ensures RunBytes(s, n) == n * ByteLen(s)
    decreases n
  {
    if n > 0 {
      RunBytesIsProduct(s, n - 1);
      assert (n - 1) * ByteLen(s) + ByteLen(s) == n * ByteLen(s);
    }
  }

  /** The `n` entries that registering `n` images of size `s` from `offset` appends. */
  function Run(offset: int, s: Size, n: nat): seq<ImageInfo>
    decreases n
  {
    if n == 0 then [] else Run(offset, s, n - 1) + [ImageInfo(offset + RunBytes(s, n - 1), s)]
  }

  /** The `k`-th image of a run sits `k` images past the run's start. */
  lemma {:induction false} RunAt(offset: int, s: Size, n: nat)
    ensures |Run(offset, s, n)| == n
    ensures forall k :: 0 <= k < n ==> Run(offset, s, n)[k] == ImageInfo(offset + RunBytes(s, k), s)
    decreases n
  {
    if n > 0 {
      RunAt(offset, s, n - 1);
    }
  }

  /** Registering one more image of the same size extends the run by one entry and the bytes by one image. */
  lemma RunStep(images: seq<ImageInfo>, offset: int, s: Size, n: nat)
    ensures images + Run(offset, s, n + 1) == (images + Run(offset, s, n)) + [ImageInfo(offset + RunBytes(s, n), s)]
    ensures RunBytes(s, n + 1) == RunBytes(s, n) + ByteLen(s)
  {
  }

  /** A run of registrations from a laid-out registry keeps it laid out. */
  lemma {:induction false} RunKeepsLaid(images: seq<ImageInfo>, offset: int, s: Size, n: nat)
    requires Laid(images, offset)
    ensures Laid(images + Run(offset, s, n), offset + RunBytes(s, n))
    decreases n
  {
    if n == 0 {
      assert images + Run(offset, s, 0) == images;
    } else {
      RunStep(images, offset, s, n - 1);
      RunKeepsLaid(images, offset, s, n - 1);
      RegisterKeepsLaid(images + Run(offset, s, n - 1), offset + RunBytes(s, n - 1), s);
    }
  }

  /**
    The font map built by registering one image per character of `chars`,
    the first at ID `first`: the character at index `k` gets ID `first + k`,
    and a repeated character keeps the ID of its last occurrence.
   */
  function FontMap(chars: string, first: nat): map<char, nat>
    decreases |chars|
  {
    if chars == [] then map[]
    else FontMap(chars[..|chars| - 1], first)[chars[|chars| - 1] := first + |chars| - 1]
  }

  /** Registering the character at index `k` adds (or overrides) its entry. */
  lemma FontMapStep(chars: string, first: nat, k: nat)
    requires k < |chars|
    ensures FontMap(chars[..k + 1], first) == FontMap(chars[..k], first)[chars[k] := first + k]
  {
    assert chars[..k + 1][..k] == chars[..k];
  }

  /** The font map's keys are exactly the characters of the list. */
  lemma {:induction false} FontMapKeys(chars: string, first: nat)
    ensures FontMap(chars, first).Keys == set c | c in chars
    decreases |chars|
  {
    if chars != [] {
      var n := |chars|;
      var init := chars[..n - 1];
      assert chars == init + [chars[n - 1]];
      assert (set c | c in chars) == (set c | c in init) + {chars[n - 1]};
      FontMapKeys(init, first);
    }
  }

  /**
    A character of the font map maps to the ID of its last occurrence: the
    entry at that index is the character and no later entry repeats it.
   */
  lemma {:induction false} FontMapEntry(chars: string, first: nat, c: char)
    requires c in FontMap(chars, first)
    ensures first <= FontMap(chars, first)[c] < first + |chars|
    ensures chars[FontMap(chars, first)[c] - first] == c
    ensures c !in chars[FontMap(chars, first)[c] - first + 1..]
    decreases |chars|
  {
    var n := |chars|;
    var init := chars[..n - 1];
    assert FontMap(chars, first) == FontMap(init, first)[chars[n - 1] := first + n - 1];
    if c != chars[n - 1] {
      var i := FontMap(init, first)[c] - first;
      assert chars == init + [chars[n - 1]];
      FontMapEntry(init, first, c);
      assert chars[i + 1..] == init[i + 1..] + [chars[n - 1]];
    }
  }

  /**
    The font map's keys are exactly the characters of the list; each maps to
    the ID of its last occurrence.
   */
  lemma FontMapLast(chars: string, first: nat)
    ensures FontMap(chars, first).Keys == set c | c in chars
    ensures forall c :: c in FontMap(chars, first) ==>
      first <= FontMap(chars, first)[c] < first + |chars|
      && chars[FontMap(chars, first)[c] - first] == c
      && c !in chars[FontMap(chars, first)[c] - first + 1..]
  {
    FontMapKeys(chars, first);
    forall c | c in FontMap(chars, first)
      ensures first <= FontMap(chars, first)[c] < first + |chars|
      ensures chars[FontMap(chars, first)[c] - first] == c
      ensures c !in chars[FontMap(chars, first)[c] - first + 1..]
    {
      FontMapEntry(chars, first, c);
    }
  }

  /** The font map only names IDs of the run it was built from. */
  lemma FontMapRange(chars: string, first: nat)
    ensures forall c :: c in FontMap(chars, first) ==> first <= FontMap(chars, first)[c] < first + |chars|
  {
    FontMapLast(chars, first);
  }

  /** The `n` characters with consecutive codes from `lo`. */
  function CodeRun(lo: nat, n: nat): (s: string)
    requires lo + n <= 0xD800
    ensures |s| == n && forall k :: 0 <= k < n ==> s[k] as int == lo + k
    decreases n
  {
    if n == 0 then [] else [lo as char] + CodeRun(lo + 1, n - 1)
  }

  /**
    The character list a font gets when the caller gives none: the
    printable ASCII characters from space (0x20) to tilde (0x7E), in code
    order, as the driver's literal default spells them out.
   */
  const DefaultCharList: string := CodeRun(0x20, 95)

  /** The default list runs from space to tilde, with the quote and the backslash in their places, and no character twice. */
  lemma DefaultCharListSpelling()
    ensures |DefaultCharList| == 95
    ensures DefaultCharList[0] == ' ' && DefaultCharList[2] == '"' && DefaultCharList[7] == '\''
    ensures DefaultCharList[16] == '0' && DefaultCharList[33] == 'A' && DefaultCharList[60] == '\\'
    ensures DefaultCharList[65] == 'a' && DefaultCharList[94] == '~'
    ensures forall i, j :: 0 <= i < j < 95 ==> DefaultCharList[i] != DefaultCharList[j]
  {
  }

  /** What an ID lookup does, as the registry's guard and Python's list indexing together decide it. */
  datatype Lookup = Rejected | Entry(index: nat) | IndexError

  /**
    The lookup as written: the guard rejects only IDs above the last index;
    what gets through is a Python list index, where a negative ID counts
    from the end and one below minus the length raises an IndexError.
   */
  function LookupAsWritten(id: int, count: nat): (r: Lookup)
    ensures r.Entry? ==> r.index < count
  {
    if id > count - 1 then Rejected
    else if id >= 0 then Entry(id)
    else if id >= -(count as int) then Entry(count + id)
    else IndexError
  }

  /** The ID `-1` is not an ID the registry ever hands out, yet it selects the last image. */
  lemma NegativeIdSelectsLast()
    ensures LookupAsWritten(-1, 2) == Entry(1)
    ensures LookupAsWritten(-3, 2) == IndexError
  {
  }

  /** The lookup the registry's IDs call for: an ID is valid exactly when it is an index of the list. */
  function CheckedLookup(id: int, count: nat): Option<nat>
  {
    if 0 <= id < count then Some(id) else None
  }

  /**
    The corrected lookup accepts exactly the IDs the registry hands out. On
    those, and on every ID above them, the two lookups agree; they differ on
    exactly the negative IDs, which the corrected lookup refuses and the
    lookup as written lets through.
   */
  lemma LookupsAgree(id: int, count: nat)
    ensures CheckedLookup(id, count).Some? <==> 0 <= id < count
    ensures CheckedLookup(id, count).Some? ==> CheckedLookup(id, count).value == id
    ensures id >= 0 ==> (CheckedLookup(id, count) == None <==> LookupAsWritten(id, count) == Rejected)
    ensures id >= 0 && CheckedLookup(id, count).Some? ==> LookupAsWritten(id, count) == Entry(id)
    ensures id < 0 ==> CheckedLookup(id, count) == None && LookupAsWritten(id, count) != Rejected
  {
  }
}
