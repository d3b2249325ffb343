/** Long file names in `minilabs/frecov/frecov.c`: the backward walk over FAT long directory entries
inverts their layout.

A directory region is a sequence of 32-byte entries, bytes are 0 to 255 and characters their codes.
 */
module LongNames {
  import opened Common
  import Bits

  type Entry = seq<nat>

  const ATTR_VOLUME_ID: nat := 0x08
  const ATTR_DIRECTORY: nat := 0x10
  const ATTR_LONG_NAME: nat := 0x0F
  const MAX_ENTRIES: nat := 32
  const NAME_BUFFER: nat := 512
  const FIRST: nat := 0
  const DELETED: nat := 0xE5

  ghost predicate IsEntry(e: Entry) {
    |e| == 32 && forall i :: 0 <= i < 32 ==> e[i] < 256
  }

  ghost predicate IsRegion(dir: seq<Entry>) {
    forall i :: 0 <= i < |dir| ==> IsEntry(dir[i])
  }

  // ------------------------------------------------------------------ one entry

  /** The byte offset of the `j`-th of the 13 characters. */
  function Offset(j: nat): (o: nat)
    requires j < 13
    ensures o + 1 < 32
  {
    if j < 5 then 1 + 2 * j else if j < 11 then 14 + 2 * (j - 5) else 28 + 2 * (j - 11)
  }

  /** The `j`-th UTF-16 code unit, little-endian. */
  function CodeUnit(e: Entry, j: nat): nat
    requires |e| == 32 && j < 13
  {
    e[Offset(j)] + 256 * e[Offset(j) + 1]
  }

  predicate Ends(u: nat) { u == 0 || u == 0xFFFF }

  /** Characters outside ASCII become question marks. */
  function CharOf(u: nat): nat { if u < 128 then u else 63 }

  /** The 13 code units of an entry. */
  function Units(e: Entry): (us: seq<nat>)
    requires |e| == 32
    ensures |us| == 13 && forall j :: 0 <= j < 13 ==> us[j] == CodeUnit(e, j)
  {
    seq(13, j requires 0 <= j < 13 => CodeUnit(e, j))
  }

  /** The characters from position `j` up to the terminator. */
  function Text(us: seq<nat>, j: nat): (t: seq<nat>)
    requires j <= |us|
    ensures |t| <= |us| - j
    decreases |us| - j
  {
    if j == |us| || Ends(us[j]) then [] else [CharOf(us[j])] + Text(us, j + 1)
  }

  /** What the loops make of any 13 code units: everything before the first 0 or 0xFFFF, with a question mark for
      whatever is not ASCII. */
  lemma {:induction false} TextIs(us: seq<nat>, j: nat, n: nat)
    requires j <= n <= |us| && (forall i :: j <= i < n ==> us[i] != 0 && us[i] != 0xFFFF)
    requires n < |us| ==> us[n] == 0 || us[n] == 0xFFFF
    ensures Text(us, j) == seq(n - j, i requires 0 <= i < n - j => if us[j + i] < 128 then us[j + i] else '?' as nat)
    decreases n - j
  {
    if j < n {
      TextIs(us, j + 1, n);
    }
  }

  predicate IsLong(e: Entry)
    requires |e| == 32
  {
    e[11] == ATTR_LONG_NAME && e[0] != DELETED
  }

  /** The ordinal carries the flag of the last entry. */
  predicate IsLast(e: Entry)
    requires |e| == 32
  {
    e[0] / 64 % 2 == 1
  }

  // ------------------------------------------------------------------ the walk

  /** The text of the entries before position `cur`, nearest first, at most 32 of them. */
  ghost function WalkText(dir: seq<Entry>, cur: nat, guard: nat): (t: seq<nat>)
    requires IsRegion(dir) && cur <= |dir| && guard <= MAX_ENTRIES
    ensures |t| <= 13 * (MAX_ENTRIES - guard)
    decreases MAX_ENTRIES - guard
  {
    if cur == 0 || guard == MAX_ENTRIES || !IsLong(dir[cur - 1]) then []
    else if IsLast(dir[cur - 1]) then Text(Units(dir[cur - 1]), FIRST)
    else Text(Units(dir[cur - 1]), FIRST) + WalkText(dir, cur - 1, guard + 1)
  }

  /** For any region at all, the walk yields at most 416 characters: they fit the buffer. */
  lemma WalkFits(dir: seq<Entry>, cur: nat)
    requires IsRegion(dir) && cur <= |dir|
    ensures |WalkText(dir, cur, FIRST)| <= 416 < NAME_BUFFER
  {
  }

  // ------------------------------------------------------------------ the layout of long names

  function EntryCount(n: nat): nat { (n + 12) / 13 }

  /** What a long entry stores at position `p` of a name: its characters, one zero, then 0xFFFF. */
  function Laid(name: seq<nat>, p: nat): nat {
    if p < |name| then name[p] else if p == |name| then 0 else 0xFFFF
  }

  /** The ordinal byte: the last entry carries a flag. */
  function OrdinalOf(name: seq<nat>, k: nat): nat {
    if k == EntryCount(|name|) then k + 0x40 else k
  }

  /** The long entry with ordinal `k` of a name. */
  ghost predicate IsLongEntry(e: Entry, name: seq<nat>, k: nat)
    requires k >= 1
  {
    && IsEntry(e) && e[11] == ATTR_LONG_NAME
    && e[0] == OrdinalOf(name, k)
    && forall j :: 0 <= j < 13 ==> CodeUnit(e, j) == Laid(name, 13 * (k - 1) + j)
  }

  /** The long entries of `name` stand before position `s`, ordinal 1 nearest. */
  ghost predicate IsLaidOut(dir: seq<Entry>, s: nat, name: seq<nat>) {
    && EntryCount(|name|) <= s <= |dir|
    && forall k :: 1 <= k <= EntryCount(|name|) ==> HasOrdinal(dir, s, name, k)
  }

  ghost predicate HasOrdinal(dir: seq<Entry>, s: nat, name: seq<nat>, k: nat)
    requires 1 <= k <= s <= |dir|
  {
    IsLongEntry(dir[s - k], name, k)
  }

  ghost predicate IsAscii(name: seq<nat>) {
    forall i :: 0 <= i < |name| ==> 0 < name[i] < 128
  }

  /** An entry holds its 13 characters of the name. */
  lemma {:induction false} EntryText(e: Entry, name: seq<nat>, k: nat, j: nat)
    requires k >= 1 && IsLongEntry(e, name, k) && IsAscii(name) && j <= 13 && 13 * (k - 1) + j <= |name|
    ensures Text(Units(e), j) == name[13 * (k - 1) + j..Min(13 * k, |name|)]
    decreases 13 - j
  {
    var p := 13 * (k - 1) + j;
    if j == 13 {
    } else {
      assert CodeUnit(e, j) == Laid(name, p);
      if p < |name| {
        EntryText(e, name, k, j + 1);
        assert name[p..Min(13 * k, |name|)] == [name[p]] + name[p + 1..Min(13 * k, |name|)];
      }
    }
  }

  /** The ordinals of a name of at most 255 characters: only the last carries the flag. */
  lemma Ordinals(e: Entry, name: seq<nat>, k: nat)
    requires k >= 1 && IsLongEntry(e, name, k) && |name| <= 255 && k <= EntryCount(|name|)
    ensures IsLong(e) && (IsLast(e) <==> k == EntryCount(|name|))
    ensures k < EntryCount(|name|) ==> 13 * k < |name|
    ensures k == EntryCount(|name|) ==> 13 * (k - 1) <= |name| <= 13 * k
    ensures k <= 20
  {
  }

  /** Characters `13 * (k - 1)` to `13 * k` of a name. */
  function Piece(name: seq<nat>, k: nat): seq<nat>
    requires 1 <= k && 13 * (k - 1) <= |name|
  {
    name[13 * (k - 1)..Min(13 * k, |name|)]
  }

  /** What the walk finds at ordinal `k` of `n`. */
  ghost predicate Decodes(dir: seq<Entry>, s: nat, name: seq<nat>, n: nat, k: nat)
    requires IsRegion(dir) && 1 <= k <= n <= s <= |dir|
  {
    var e := dir[s - k];
    && IsLong(e) && (IsLast(e) <==> k == n)
    && 13 * (k - 1) <= |name| && Text(Units(e), FIRST) == Piece(name, k)
    && (if k == n then |name| <= 13 * k else 13 * k < |name|)
  }

  lemma EachDecodes(dir: seq<Entry>, s: nat, name: seq<nat>, k: nat)
    requires IsRegion(dir) && IsLaidOut(dir, s, name) && IsAscii(name) && |name| <= 255
    requires 1 <= k <= EntryCount(|name|)
    ensures Decodes(dir, s, name, EntryCount(|name|), k) && EntryCount(|name|) <= 20
  {
    assert HasOrdinal(dir, s, name, k);
    Ordinals(dir[s - k], name, k);
    EntryText(dir[s - k], name, k, FIRST);
  }

  lemma WalkUnfold(dir: seq<Entry>, cur: nat, guard: nat)
    requires IsRegion(dir) && 0 < cur <= |dir| && guard < MAX_ENTRIES && IsLong(dir[cur - 1])
    ensures WalkText(dir, cur, guard) ==
              Text(Units(dir[cur - 1]), FIRST) + if IsLast(dir[cur - 1]) then [] else WalkText(dir, cur - 1, guard + 1)
  {
  }

  lemma DecodeStep(dir: seq<Entry>, s: nat, name: seq<nat>, n: nat, k: nat)
    requires IsRegion(dir) && 1 <= k <= n <= s <= |dir| && n <= 20 && Decodes(dir, s, name, n, k)
    ensures WalkText(dir, s - k + 1, k - 1) == Piece(name, k) + if k == n then [] else WalkText(dir, s - k, k)
  {
    WalkUnfold(dir, s - k + 1, k - 1);
  }

  lemma PieceRest(name: seq<nat>, k: nat, d: nat)
    requires 1 <= k < d && 13 * (k - 1) <= |name|
    ensures |name| <= 13 * k ==> Piece(name, k) == name[13 * (k - 1)..Min(|name|, 13 * (d - 1))]
    ensures 13 * k < |name| ==>
              Piece(name, k) + name[13 * k..Min(|name|, 13 * (d - 1))] == name[13 * (k - 1)..Min(|name|, 13 * (d - 1))]
  {
  }

  /** From ordinal `k` on, the walk rebuilds the name up to the first entry it does not take for a long one,
      that with ordinal `d`. */
  lemma {:induction false} WalkFromOrdinal(dir: seq<Entry>, s: nat, name: seq<nat>, n: nat, d: nat, k: nat)
    requires IsRegion(dir) && 1 <= k <= n <= s <= |dir| && n <= 20 && k <= d <= n + 1
    requires forall i :: 1 <= i < d ==> Decodes(dir, s, name, n, i)
    requires d <= n ==> !IsLong(dir[s - d])
    requires 13 * (k - 1) <= |name|
    ensures WalkText(dir, s - k + 1, k - 1) == name[13 * (k - 1)..Min(|name|, 13 * (d - 1))]
    decreases d - k
  {
    if k == d {
      WalkStops(dir, s, d);
      NoPiece(name, k);
    } else {
      assert Decodes(dir, s, name, n, k);
      DecodeStep(dir, s, name, n, k);
      PieceRest(name, k, d);
      if k < n {
        WalkFromOrdinal(dir, s, name, n, d, k + 1);
        assert WalkText(dir, s - k, k) == name[13 * k..Min(|name|, 13 * (d - 1))];
      }
    }
  }

  lemma WalkStops(dir: seq<Entry>, s: nat, d: nat)
    requires IsRegion(dir) && 1 <= d <= s <= |dir| && d <= 20 && !IsLong(dir[s - d])
    ensures WalkText(dir, s - d + 1, d - 1) == []
  {
  }

  lemma NoPiece(name: seq<nat>, k: nat)
    requires 1 <= k && 13 * (k - 1) <= |name|
    ensures name[13 * (k - 1)..Min(|name|, 13 * (k - 1))] == []
  {
  }

  /** The walk inverts the layout. */
  lemma WalkInverts(dir: seq<Entry>, s: nat, name: seq<nat>)
    requires IsRegion(dir) && IsLaidOut(dir, s, name) && IsAscii(name) && 1 <= |name| <= 255
    ensures WalkText(dir, s, FIRST) == name
  {
    var n := EntryCount(|name|);
    forall i | 1 <= i <= n ensures Decodes(dir, s, name, n, i) {
      EachDecodes(dir, s, name, i);
    }
    EachDecodes(dir, s, name, 1);
    WalkFromOrdinal(dir, s, name, n, n + 1, 1);
    AllPieces(name);
  }

  lemma AllPieces(name: seq<nat>)
    ensures |name| <= 13 * EntryCount(|name|)
  {
  }

  // ------------------------------------------------------------------ deleted entries

  /** An entry with its first byte overwritten. */
  function WithOrdinal(e: Entry, ord: nat): Entry
    requires |e| == 32
  {
    [ord] + e[1..]
  }

  /** The long entry with ordinal `k` of a name, which may have been marked as deleted. */
  ghost predicate IsErasable(e: Entry, name: seq<nat>, k: nat)
    requires k >= 1
  {
    |e| == 32 && (IsLongEntry(e, name, k) || (e[0] == DELETED && IsLongEntry(WithOrdinal(e, OrdinalOf(name, k)), name, k)))
  }

  ghost predicate HasErasable(dir: seq<Entry>, s: nat, name: seq<nat>, k: nat)
    requires 1 <= k <= s <= |dir|
  {
    IsErasable(dir[s - k], name, k)
  }

  /** The long entries of `name` stand before position `s`; any of them may be marked as deleted. */
  ghost predicate IsErased(dir: seq<Entry>, s: nat, name: seq<nat>) {
    && EntryCount(|name|) <= s <= |dir|
    && forall k :: 1 <= k <= EntryCount(|name|) ==> HasErasable(dir, s, name, k)
  }

  predicate Marked(dir: seq<Entry>, s: nat, k: nat)
    requires 1 <= k <= s <= |dir|
  {
    |dir[s - k]| == 32 && dir[s - k][0] == DELETED
  }

  /** The nearest ordinal from `k` on that is marked, or `n + 1`. */
  function FirstMarked(dir: seq<Entry>, s: nat, n: nat, k: nat): (d: nat)
    requires 1 <= k <= n + 1 && n <= s <= |dir|
    ensures k <= d <= n + 1 && (d <= n ==> Marked(dir, s, d)) && forall i :: k <= i < d ==> !Marked(dir, s, i)
    decreases n + 1 - k
  {
    if k == n + 1 || Marked(dir, s, k) then k else FirstMarked(dir, s, n, k + 1)
  }

  lemma UnmarkedDecodes(dir: seq<Entry>, s: nat, name: seq<nat>, k: nat)
    requires IsRegion(dir) && IsErased(dir, s, name) && IsAscii(name) && |name| <= 255
    requires 1 <= k <= EntryCount(|name|) && !Marked(dir, s, k)
    ensures Decodes(dir, s, name, EntryCount(|name|), k) && EntryCount(|name|) <= 20
  {
    assert HasErasable(dir, s, name, k);
    Ordinals(dir[s - k], name, k);
    EntryText(dir[s - k], name, k, FIRST);
  }

  /** Deleted entries end the walk: what it yields is the part of the name before the nearest of them, so the
      name is rebuilt iff none of its entries is marked. */
  lemma ErasedWalk(dir: seq<Entry>, s: nat, name: seq<nat>)
    requires IsRegion(dir) && IsErased(dir, s, name) && IsAscii(name) && 1 <= |name| <= 255
    ensures var n := EntryCount(|name|);
            var d := FirstMarked(dir, s, n, 1);
            && WalkText(dir, s, FIRST) == name[..Min(|name|, 13 * (d - 1))]
            && (WalkText(dir, s, FIRST) == name <==> forall k :: 1 <= k <= n ==> !Marked(dir, s, k))
  {
    var n := EntryCount(|name|);
    var d := FirstMarked(dir, s, n, 1);
    forall i | 1 <= i < d ensures Decodes(dir, s, name, n, i) {
      UnmarkedDecodes(dir, s, name, i);
    }
    AtMostTwenty(name, d);
    WalkFromOrdinal(dir, s, name, n, d, 1);
    WholePrefix(name, d);
  }

  /** A prefix of whole pieces is the name iff it has all pieces. */
  lemma WholePrefix(name: seq<nat>, d: nat)
    requires 1 <= |name| <= 255 && 1 <= d <= EntryCount(|name|) + 1
    ensures name[..Min(|name|, 13 * (d - 1))] == name <==> d == EntryCount(|name|) + 1
    ensures name[13 * (1 - 1)..Min(|name|, 13 * (d - 1))] == name[..Min(|name|, 13 * (d - 1))]
  {
    AllPieces(name);
    AtMostTwenty(name, d);
    assert |name[..Min(|name|, 13 * (d - 1))]| == Min(|name|, 13 * (d - 1));
  }

  lemma AtMostTwenty(name: seq<nat>, d: nat)
    requires 1 <= |name| <= 255
    ensures 1 <= EntryCount(|name|) <= 20
    ensures 1 <= d <= EntryCount(|name|) ==> 13 * (d - 1) < |name|
  {
  }

  // ------------------------------------------------------------------ the file entry

  datatype Found = Found(name: seq<nat>, cluster: nat, size: nat)

  function Half(e: Entry, o: nat): nat
    requires o + 1 < |e|
  {
    e[o] + 256 * e[o + 1]
  }

  function Cluster(sd: Entry): nat
    requires |sd| == 32
  {
    65536 * Half(sd, 20) + Half(sd, 26)
  }

  function FileSize(sd: Entry): nat
    requires |sd| == 32
  {
    Half(sd, 28) + 65536 * Half(sd, 30)
  }

  /** A regular file with a first cluster and a plausible size. */
  predicate IsFile(sd: Entry, imageSize: nat)
    requires |sd| == 32
  {
    && sd[11] % 16 != 15 && sd[11] / 16 % 2 == 0 && sd[11] / 8 % 2 == 0
    && Cluster(sd) >= 2 && 0 < FileSize(sd) <= imageSize
  }

  /** The tests of the source: no long-name entry, no directory, no volume label, a first cluster, and a size that
      fits. */
  lemma FileTests(sd: Entry, imageSize: nat)
    requires |sd| == 32
    ensures IsFile(sd, imageSize) <==>
              && Bits.And(sd[11], ATTR_LONG_NAME) != ATTR_LONG_NAME && Bits.And(sd[11], ATTR_DIRECTORY) == 0 && Bits.And(sd[11], ATTR_VOLUME_ID) == 0
              && Cluster(sd) >= 2 && 0 < FileSize(sd) <= imageSize
  {
    LowNibble(sd[11]);
    BitThree(sd[11]);
  }

  lemma LowNibble(x: nat)
    ensures Bits.And(x, 15) == x % 16
  {
    OddMask(x, 7);
    OddMask(x / 2, 3);
    OddMask(x / 4, 1);
    OddMask(x / 8, 0);
    Nibble(x);
  }

  lemma OddMask(x: nat, y: nat)
    ensures Bits.And(x, 2 * y + 1) == 2 * Bits.And(x / 2, y) + x % 2
  {
  }

  lemma Halved(x: nat, m: nat)
    requires m > 0
    ensures x % (2 * m) == 2 * (x / 2 % m) + x % 2
  {
    var q, r := x / 2 / m, x / 2 % m;
    assert x / 2 == q * m + r;
    assert x == q * (2 * m) + (2 * r + x % 2);
    Bits.DivUnique(x, 2 * m, q, 2 * r + x % 2);
  }

  lemma Nibble(x: nat)
    ensures 2 * (2 * (2 * (x / 8 % 2) + x / 4 % 2) + x / 2 % 2) + x % 2 == x % 16
  {
    Halved(x, 8);
    Halved(x / 2, 4);
    Halved(x / 4, 2);
    assert x / 2 / 2 == x / 4 && x / 4 / 2 == x / 8;
  }

  lemma BitThree(x: nat)
    ensures Bits.And(x, 8) == 8 * (x / 8 % 2) && Bits.And(x, 16) == 16 * (x / 16 % 2)
  {
    assert Bits.And(x, 16) == 2 * Bits.And(x / 2, 8);
    EightAt(x);
    EightAt(x / 2);
  }

  lemma EightAt(x: nat)
    ensures Bits.And(x, 8) == 8 * (x / 8 % 2)
  {
    assert Bits.And(x, 8) == 2 * Bits.And(x / 2, 4);
    assert Bits.And(x / 2, 4) == 2 * Bits.And(x / 4, 2);
    assert Bits.And(x / 4, 2) == 2 * Bits.And(x / 8, 1);
    assert Bits.And(x / 8, 1) == x / 8 % 2;
  }

  /** The part of a sequence before the first `x`. */
  function UpTo(s: seq<nat>, x: nat): (r: seq<nat>)
    ensures |r| <= |s| && r <= s && x !in r && (|r| < |s| ==> s[|r|] == x)
  {
    if s == [] || s[0] == x then [] else [s[0]] + UpTo(s[1..], x)
  }

  /** The 8.3 name. */
  function ShortText(sd: Entry): (t: seq<nat>)
    requires |sd| == 32
    ensures |t| <= 12
  {
    UpTo(sd[..8], 32) + if sd[8] != 32 then [46] + UpTo(sd[8..11], 32) else []
  }

  function Lower(c: nat): nat { if 65 <= c <= 90 then c + 32 else c }

  /** At least one character and ".bmp", in any case. */
  predicate EndsInBmp(t: seq<nat>) {
    |t| >= 5 && t[|t| - 4] == 46 && Lower(t[|t| - 3]) == 98 && Lower(t[|t| - 2]) == 109 && Lower(t[|t| - 1]) == 112
  }

  /** The name of the entry at position `s`, as the C string the source builds. */
  ghost function NameOf(dir: seq<Entry>, s: nat): seq<nat>
    requires IsRegion(dir) && s < |dir|
  {
    var long := WalkText(dir, s, FIRST);
    UpTo(if long != [] then long else ShortText(dir[s]), 0)
  }

  ghost function Recovered(dir: seq<Entry>, s: nat, imageSize: nat): Option<Found>
    requires IsRegion(dir) && s < |dir|
  {
    if IsFile(dir[s], imageSize) && EndsInBmp(NameOf(dir, s))
    then Some(Found(NameOf(dir, s), Cluster(dir[s]), FileSize(dir[s]))) else None
  }

  lemma {:induction false} NoTerminator(name: seq<nat>)
    requires IsAscii(name)
    ensures UpTo(name, 0) == name
  {
    if name != [] {
      NoTerminator(name[1..]);
    }
  }

  /** Every ASCII name of 5 to 255 characters that ends in ".bmp" is recovered exactly from its layout. */
  lemma NameIsRecovered(dir: seq<Entry>, s: nat, name: seq<nat>, imageSize: nat)
    requires IsRegion(dir) && s < |dir| && IsLaidOut(dir, s, name) && IsFile(dir[s], imageSize)
    requires IsAscii(name) && |name| <= 255 && EndsInBmp(name)
    ensures Recovered(dir, s, imageSize) == Some(Found(name, Cluster(dir[s]), FileSize(dir[s])))
  {
    WalkInverts(dir, s, name);
    NoTerminator(name);
  }

  /** A deleted file whose nearest long entry is marked goes by its 8.3 name. */
  lemma DeletedGoesByShortName(dir: seq<Entry>, s: nat)
    requires IsRegion(dir) && 0 < s < |dir| && dir[s - 1][0] == DELETED
    ensures NameOf(dir, s) == UpTo(ShortText(dir[s]), 0)
  {
  }

  // ------------------------------------------------------------------ encoding

  /** A 16-bit field of the directory. */
  function Field(x: nat): seq<nat> { [x % 256, x / 256] }

  /** `count` characters of a name, or what stands for them, from position `p` on. */
  function Chars(name: seq<nat>, p: nat, count: nat): (b: seq<nat>)
    ensures |b| == 2 * count
  {
    seq(2 * count, i requires 0 <= i < 2 * count => Field(Laid(name, p + i / 2))[i % 2])
  }

  /** The long entry with ordinal `k`, field by field; `checksum` is that of the short name. */
  function EncodeEntry(name: seq<nat>, k: nat, checksum: nat): (e: Entry)
    requires k >= 1
    ensures |e| == 32
  {
    var p := 13 * (k - 1);
    [OrdinalOf(name, k)] + Chars(name, p, 5) + [ATTR_LONG_NAME, 0, checksum] + Chars(name, p + 5, 6) + [0, 0] + Chars(name, p + 11, 2)
  }

  /** The long entries of a name, ordinal 1 last. */
  function Encode(name: seq<nat>, checksum: nat): (es: seq<Entry>)
    ensures forall i :: 0 <= i < |es| ==> |es[i]| == 32
  {
    var n := EntryCount(|name|);
    seq(n, i requires 0 <= i < n => EncodeEntry(name, n - i, checksum))
  }

  lemma CharsBytes(name: seq<nat>, p: nat, count: nat)
    requires IsAscii(name)
    ensures forall i :: 0 <= i < 2 * count ==> Chars(name, p, count)[i] < 256
  {
    forall i | 0 <= i < 2 * count ensures Chars(name, p, count)[i] < 256 {
      assert Laid(name, p + i / 2) < 65536;
    }
  }

  lemma EncodedNames(name: seq<nat>, k: nat, checksum: nat)
    requires k >= 1
    ensures var e, p := EncodeEntry(name, k, checksum), 13 * (k - 1);
            e[1..11] == Chars(name, p, 5) && e[14..26] == Chars(name, p + 5, 6) && e[28..32] == Chars(name, p + 11, 2)
  {
  }

  lemma EncodedUnit(name: seq<nat>, k: nat, checksum: nat, j: nat)
    requires k >= 1 && j < 13
    ensures CodeUnit(EncodeEntry(name, k, checksum), j) == Laid(name, 13 * (k - 1) + j)
  {
    EncodedNames(name, k, checksum);
    NamesUnit(EncodeEntry(name, k, checksum), name, 13 * (k - 1), j);
  }

  lemma NamesUnit(e: Entry, name: seq<nat>, p: nat, j: nat)
    requires |e| == 32 && j < 13
    requires e[1..11] == Chars(name, p, 5) && e[14..26] == Chars(name, p + 5, 6) && e[28..32] == Chars(name, p + 11, 2)
    ensures CodeUnit(e, j) == Laid(name, p + j)
  {
    if j < 5 {
      UnitIn(name, p, 5, j, e, 1);
    } else if j < 11 {
      UnitIn(name, p + 5, 6, j - 5, e, 14);
    } else {
      UnitIn(name, p + 11, 2, j - 11, e, 28);
    }
  }

  lemma UnitIn(name: seq<nat>, p: nat, count: nat, i: nat, e: Entry, o: nat)
    requires i < count && o + 2 * count <= |e| && e[o..o + 2 * count] == Chars(name, p, count)
    ensures e[o + 2 * i] + 256 * e[o + 2 * i + 1] == Laid(name, p + i)
  {
    assert e[o + 2 * i] == e[o..o + 2 * count][2 * i] && e[o + 2 * i + 1] == e[o..o + 2 * count][2 * i + 1];
  }

  lemma EncodedEntry(name: seq<nat>, k: nat, checksum: nat)
    requires k >= 1 && IsAscii(name) && |name| <= 255 && k <= EntryCount(|name|) && checksum < 256
    ensures IsLongEntry(EncodeEntry(name, k, checksum), name, k)
  {
    var p := 13 * (k - 1);
    CharsBytes(name, p, 5);
    CharsBytes(name, p + 5, 6);
    CharsBytes(name, p + 11, 2);
    assert k <= 20;
    forall j | 0 <= j < 13 ensures CodeUnit(EncodeEntry(name, k, checksum), j) == Laid(name, p + j) {
      EncodedUnit(name, k, checksum, j);
    }
  }

  /** Encoded entries are laid out as the specification says. */
  lemma EncodeLaysOut(before: seq<Entry>, name: seq<nat>, checksum: nat, sd: Entry, after: seq<Entry>, dir: seq<Entry>)
    requires IsRegion(before) && IsRegion(after) && IsEntry(sd) && checksum < 256
    requires IsAscii(name) && |name| <= 255 && dir == before + Encode(name, checksum) + [sd] + after
    ensures var s := |before| + EntryCount(|name|);
            IsRegion(dir) && s < |dir| && dir[s] == sd && IsLaidOut(dir, s, name)
  {
    var long, n := Encode(name, checksum), EntryCount(|name|);
    var s := |before| + n;
    EncodedLong(name, checksum);
    Around(before, long, sd, after);
    forall k | 1 <= k <= n ensures HasOrdinal(dir, s, name, k) {
      assert dir[s - k] == long[n - k];
    }
  }

  /** Decoding inverts encoding, whatever stands around the entries. */
  lemma DecodeEncode(before: seq<Entry>, name: seq<nat>, checksum: nat, sd: Entry, after: seq<Entry>, dir: seq<Entry>, imageSize: nat)
    requires IsRegion(before) && IsRegion(after) && IsEntry(sd) && IsFile(sd, imageSize) && checksum < 256
    requires IsAscii(name) && |name| <= 255 && EndsInBmp(name) && dir == before + Encode(name, checksum) + [sd] + after
    ensures IsRegion(dir) && |before| + EntryCount(|name|) < |dir|
    ensures Recovered(dir, |before| + EntryCount(|name|), imageSize) == Some(Found(name, Cluster(sd), FileSize(sd)))
  {
    EncodeLaysOut(before, name, checksum, sd, after, dir);
    NameIsRecovered(dir, |before| + EntryCount(|name|), name, imageSize);
  }

  /** The 32-byte short entry of a file, with its times in `times` and `written`. */
  function FileEntry(short: seq<nat>, attr: nat, times: seq<nat>, written: seq<nat>, cluster: nat, size: nat): Entry {
    short + [attr] + times + Field(cluster / 65536) + written + Field(cluster % 65536) + Field(size % 65536) + Field(size / 65536)
  }

  /** An entry holds the cluster and the size it was made for. */
  lemma FileFields(short: seq<nat>, attr: nat, times: seq<nat>, written: seq<nat>, cluster: nat, size: nat)
    requires |short| == 11 && |times| == 8 && |written| == 4
    ensures var sd := FileEntry(short, attr, times, written, cluster, size);
            |sd| == 32 && sd[..11] == short && sd[11] == attr && Cluster(sd) == cluster && FileSize(sd) == size
  {
    var sd := FileEntry(short, attr, times, written, cluster, size);
    assert sd[20..22] == Field(cluster / 65536) && sd[26..28] == Field(cluster % 65536);
    assert sd[28..30] == Field(size % 65536) && sd[30..32] == Field(size / 65536);
    HalfOf(sd, 20, cluster / 65536);
    HalfOf(sd, 26, cluster % 65536);
    HalfOf(sd, 28, size % 65536);
    HalfOf(sd, 30, size / 65536);
  }

  lemma HalfOf(e: Entry, o: nat, x: nat)
    requires o + 2 <= |e| && e[o..o + 2] == Field(x)
    ensures Half(e, o) == x
  {
    assert e[o] == e[o..o + 2][0] && e[o + 1] == e[o..o + 2][1];
  }

  /** A file is recovered with its name, its first cluster and its size. */
  lemma DecodeFile(before: seq<Entry>, name: seq<nat>, checksum: nat, sd: Entry, after: seq<Entry>, dir: seq<Entry>, imageSize: nat,
                   short: seq<nat>, attr: nat, times: seq<nat>, written: seq<nat>, cluster: nat, size: nat)
    requires IsRegion(before) && IsRegion(after) && checksum < 256 && |short| == 11 && |times| == 8 && |written| == 4
    requires sd == FileEntry(short, attr, times, written, cluster, size) && IsEntry(sd)
    requires attr % 16 != 15 && attr / 16 % 2 == 0 && attr / 8 % 2 == 0 && cluster >= 2 && 0 < size <= imageSize
    requires IsAscii(name) && |name| <= 255 && EndsInBmp(name) && dir == before + Encode(name, checksum) + [sd] + after
    ensures IsRegion(dir) && |before| + EntryCount(|name|) < |dir|
    ensures Recovered(dir, |before| + EntryCount(|name|), imageSize) == Some(Found(name, cluster, size))
  {
    FileFields(short, attr, times, written, cluster, size);
    DecodeEncode(before, name, checksum, sd, after, dir, imageSize);
  }

  lemma EncodedLong(name: seq<nat>, checksum: nat)
    requires IsAscii(name) && |name| <= 255 && checksum < 256
    ensures IsRegion(Encode(name, checksum)) && |Encode(name, checksum)| == EntryCount(|name|)
    ensures var n := EntryCount(|name|); forall i :: 0 <= i < n ==> IsLongEntry(Encode(name, checksum)[i], name, n - i)
  {
    var n := EntryCount(|name|);
    forall i | 0 <= i < n ensures IsLongEntry(Encode(name, checksum)[i], name, n - i) {
      EncodedEntry(name, n - i, checksum);
    }
  }

  lemma Around(before: seq<Entry>, long: seq<Entry>, sd: Entry, after: seq<Entry>)
    requires IsRegion(before) && IsRegion(long) && IsEntry(sd) && IsRegion(after)
    ensures var dir := before + long + [sd] + after;
            && IsRegion(dir) && dir[|before| + |long|] == sd
            && forall i :: |before| <= i < |before| + |long| ==> dir[i] == long[i - |before|]
  {
  }

  /** Deleting a file overwrites the first byte of its entries. */
  function Erase(entries: seq<Entry>): seq<Entry>
    requires forall i :: 0 <= i < |entries| ==> |entries[i]| == 32
  {
    seq(|entries|, i requires 0 <= i < |entries| => WithOrdinal(entries[i], DELETED))
  }

  lemma EraseLaysOut(before: seq<Entry>, name: seq<nat>, checksum: nat, sd: Entry, after: seq<Entry>, dir: seq<Entry>)
    requires IsRegion(before) && IsRegion(after) && IsEntry(sd) && checksum < 256
    requires IsAscii(name) && 1 <= |name| <= 255 && dir == before + Erase(Encode(name, checksum)) + [sd] + after
    ensures var s := |before| + EntryCount(|name|);
            && IsRegion(dir) && 0 < s < |dir| && dir[s] == sd && dir[s - 1][0] == DELETED && IsErased(dir, s, name)
  {
    var long, n := Encode(name, checksum), EntryCount(|name|);
    var erased, s := Erase(long), |before| + n;
    EncodedLong(name, checksum);
    ErasedRegion(long);
    Around(before, erased, sd, after);
    AtMostTwenty(name, 1);
    forall k | 1 <= k <= n ensures HasErasable(dir, s, name, k) && dir[s - k][0] == DELETED {
      assert dir[s - k] == erased[n - k];
      ErasedEntry(long[n - k], name, k);
    }
  }

  lemma ErasedEntry(e: Entry, name: seq<nat>, k: nat)
    requires k >= 1 && IsLongEntry(e, name, k)
    ensures IsErasable(WithOrdinal(e, DELETED), name, k) && WithOrdinal(e, DELETED)[0] == DELETED
  {
    assert WithOrdinal(WithOrdinal(e, DELETED), OrdinalOf(name, k)) == e;
  }

  lemma ErasedRegion(long: seq<Entry>)
    requires IsRegion(long)
    ensures IsRegion(Erase(long))
  {
  }

  /** When the entries of an encoded name have been overwritten, the name is lost: the walk yields nothing and the
      file goes by its 8.3 name. */
  lemma ErasedEncoding(before: seq<Entry>, name: seq<nat>, checksum: nat, sd: Entry, after: seq<Entry>, dir: seq<Entry>)
    requires IsRegion(before) && IsRegion(after) && IsEntry(sd) && checksum < 256
    requires IsAscii(name) && 1 <= |name| <= 255 && dir == before + Erase(Encode(name, checksum)) + [sd] + after
    ensures IsRegion(dir) && |before| + EntryCount(|name|) < |dir| && IsErased(dir, |before| + EntryCount(|name|), name)
    ensures WalkText(dir, |before| + EntryCount(|name|), FIRST) == []
    ensures NameOf(dir, |before| + EntryCount(|name|)) == UpTo(ShortText(sd), 0)
  {
    EraseLaysOut(before, name, checksum, sd, after, dir);
    DeletedGoesByShortName(dir, |before| + EntryCount(|name|));
  }

  lemma ShortStart(sd: Entry)
    requires |sd| == 32 && sd[0] == DELETED
    ensures var t := UpTo(ShortText(sd), 0); t != [] && t[0] == DELETED
  {
  }

  /** So a deleted file, its own entry overwritten too, never gets an ASCII name back. */
  lemma DeletedNameIsLost(before: seq<Entry>, name: seq<nat>, checksum: nat, sd: Entry, after: seq<Entry>, dir: seq<Entry>, imageSize: nat)
    requires IsRegion(before) && IsRegion(after) && IsEntry(sd) && checksum < 256 && sd[0] == DELETED
    requires IsAscii(name) && 1 <= |name| <= 255 && dir == before + Erase(Encode(name, checksum)) + [sd] + after
    ensures IsRegion(dir) && |before| + EntryCount(|name|) < |dir|
    ensures var r := Recovered(dir, |before| + EntryCount(|name|), imageSize); r.Some? ==> r.value.name != name
  {
    ErasedEncoding(before, name, checksum, sd, after, dir);
    ShortStart(sd);
  }

  /** It is recovered under another name if its 8.3 name ends in ".BMP". */
  lemma GoesByOtherName(before: seq<Entry>, name: seq<nat>, checksum: nat, sd: Entry, after: seq<Entry>, dir: seq<Entry>, imageSize: nat)
    returns (s: nat)
    requires IsRegion(before) && IsRegion(after) && IsEntry(sd) && checksum < 256 && sd[0] == DELETED
    requires IsAscii(name) && 1 <= |name| <= 255 && dir == before + Erase(Encode(name, checksum)) + [sd] + after
    requires IsFile(sd, imageSize) && EndsInBmp(UpTo(ShortText(sd), 0))
    ensures s == |before| + EntryCount(|name|) && IsRegion(dir) && s < |dir| && IsErased(dir, s, name)
    ensures Recovered(dir, s, imageSize).Some? && Recovered(dir, s, imageSize).value.name != name
  {
    s := |before| + EntryCount(|name|);
    EraseLaysOut(before, name, checksum, sd, after, dir);
    ErasedEncoding(before, name, checksum, sd, after, dir);
    DeletedNameIsLost(before, name, checksum, sd, after, dir, imageSize);
  }

  /** The file entry of a deleted picture "?AAAAAAA.BMP", the first byte overwritten. */
  function DeletedEntry(): (sd: Entry)
    ensures IsEntry(sd) && sd[0] == DELETED && (forall i :: 1 <= i < 8 ==> sd[i] == 65)
    ensures sd[8] == 66 && sd[9] == 77 && sd[10] == 80 && sd[11] == 32
    ensures Half(sd, 20) == 0 && Half(sd, 26) == 2 && Half(sd, 28) == 1 && Half(sd, 30) == 0
  {
    seq(32, i => if i == 0 then DELETED else if i < 8 then 65 else if i == 8 then 66 else if i == 9 then 77
                 else if i == 10 then 80 else if i == 11 then 32 else if i == 26 then 2 else if i == 28 then 1 else 0)
  }

  lemma DeletedEntryName(sd: Entry)
    requires sd == DeletedEntry()
    ensures IsFile(sd, 1) && EndsInBmp(UpTo(ShortText(sd), 0))
  {
    UpToIs(sd[..8], 32, 8);
    UpToIs(sd[8..11], 32, 3);
    var t := sd[..8] + [46] + sd[8..11];
    assert ShortText(sd) == t;
    UpToIs(t, 0, 12);
    assert t[..12] == t;
  }

  /** "photo.bmp". */
  lemma PhotoName() returns (name: seq<nat>)
    ensures IsAscii(name) && EndsInBmp(name) && |name| == 9
  {
    name := [112, 104, 111, 116, 111, 46, 98, 109, 112];
  }

  /** Concretely: "photo.bmp", deleted, is recovered under another name. */
  lemma DeletedExample() returns (dir: seq<Entry>, s: nat, name: seq<nat>)
    ensures IsRegion(dir) && s < |dir| && IsErased(dir, s, name) && IsAscii(name) && EndsInBmp(name)
    ensures Recovered(dir, s, 1).Some? && Recovered(dir, s, 1).value.name != name
  {
    name := PhotoName();
    var sd := DeletedEntry();
    DeletedEntryName(sd);
    dir, s := DeletedDirectory(name, sd);
  }

  lemma DeletedDirectory(name: seq<nat>, sd: Entry) returns (dir: seq<Entry>, s: nat)
    requires IsAscii(name) && 1 <= |name| <= 255
    requires IsEntry(sd) && sd[0] == DELETED && IsFile(sd, 1) && EndsInBmp(UpTo(ShortText(sd), 0))
    ensures IsRegion(dir) && s < |dir| && IsErased(dir, s, name)
    ensures Recovered(dir, s, 1).Some? && Recovered(dir, s, 1).value.name != name
  {
    dir := [] + Erase(Encode(name, 0)) + [sd] + [];
    s := GoesByOtherName([], name, 0, sd, [], dir, 1);
  }

  // ------------------------------------------------------------------ the loops of the source

  /** Append one character to the buffer. */
  method Put(dst: array<nat>, pos: nat, ch: nat)
    requires pos < dst.Length
    modifies dst
    ensures dst[..pos + 1] == old(dst[..pos]) + [ch]
  {
    dst[pos] := ch;
  }

  lemma TextStep(us: seq<nat>, j: nat)
    requires j < |us|
    ensures Text(us, j) == if Ends(us[j]) then [] else [CharOf(us[j])] + Text(us, j + 1)
  {
  }

  lemma Regroup(a: seq<nat>, c: nat, b: seq<nat>)
    ensures a + ([c] + b) == (a + [c]) + b
  {
  }

  /** The inner loop of `lfn_chars`: one run of `count` characters from byte offset `off`, code units `j`
      and on.  With the rest of the entry the buffer would hold `whole`. */
  method LfnPart(l: Entry, dst: array<nat>, pos: nat, off: nat, count: nat, ghost us: seq<nat>, ghost j: nat, ghost whole: seq<nat>)
    returns (end: nat, stop: bool)
    requires |l| == 32 && j + count <= |us| && pos + count <= dst.Length && off + 2 * count <= 32
    requires forall i :: 0 <= i < count ==> us[j + i] == l[off + i * 2] + 256 * l[off + i * 2 + 1]
    requires whole == dst[..pos] + Text(us, j)
    modifies dst
    ensures pos <= end <= pos + count && (!stop ==> end == pos + count)
    ensures whole == dst[..end] + if stop then [] else Text(us, j + count)
  {
    var i := 0;
    end := pos;
    ghost var acc := dst[..pos];
    while i < count
      invariant i <= count && end == pos + i && dst[..end] == acc && whole == acc + Text(us, j + i)
    {
      var ch := l[off + i * 2] + 256 * l[off + i * 2 + 1];
      assert ch == us[j + i];
      TextStep(us, j + i);
      if ch == 0x0000 || ch == 0xFFFF {
        return end, true;
      }
      Regroup(acc, CharOf(ch), Text(us, j + i + 1));
      Put(dst, end, if ch < 128 then ch else 63);
      acc := acc + [CharOf(ch)];
      end := end + 1;
      i := i + 1;
    }
    stop := false;
  }

  /** `lfn_chars`. */
  method LfnChars(l: Entry, dst: array<nat>, pos: nat) returns (end: nat)
    requires |l| == 32 && pos + 13 <= dst.Length
    modifies dst
    ensures pos <= end <= pos + 13 && dst[..end] == old(dst[..pos]) + Text(Units(l), FIRST)
  {
    ghost var us := Units(l);
    ghost var whole := dst[..pos] + Text(us, FIRST);
    var offs, counts, p := [1, 14, 28], [5, 6, 2], 0;
    ghost var j: nat := FIRST;
    end := pos;
    while p < 3
      invariant p <= 3 && j == (if p == 0 then 0 else if p == 1 then 5 else if p == 2 then 11 else 13)
      invariant end == pos + j && whole == dst[..end] + Text(us, j)
    {
      var stop: bool;
      forall i | 0 <= i < counts[p] ensures us[j + i] == l[offs[p] + i * 2] + 256 * l[offs[p] + i * 2 + 1] {
        assert us[j + i] == CodeUnit(l, j + i);
      }
      end, stop := LfnPart(l, dst, end, offs[p], counts[p], us, j, whole);
      if stop {
        return;
      }
      j := j + counts[p];
      p := p + 1;
    }
  }

  /** The backward walk of `read_bmp_entry`. */
  lemma WalkStep(dir: seq<Entry>, cur: nat, guard: nat, acc: seq<nat>)
    requires IsRegion(dir) && 0 < cur <= |dir| && guard < MAX_ENTRIES && IsLong(dir[cur - 1])
    ensures var t := Text(Units(dir[cur - 1]), FIRST);
            acc + WalkText(dir, cur, guard) == if IsLast(dir[cur - 1]) then acc + t else (acc + t) + WalkText(dir, cur - 1, guard + 1)
  {
    WalkUnfold(dir, cur, guard);
    Reassociate(acc, Text(Units(dir[cur - 1]), FIRST), if IsLast(dir[cur - 1]) then [] else WalkText(dir, cur - 1, guard + 1));
  }

  lemma WalkEnds(dir: seq<Entry>, cur: nat, guard: nat, acc: seq<nat>)
    requires IsRegion(dir) && cur <= |dir| && guard <= MAX_ENTRIES
    requires cur == 0 || guard == MAX_ENTRIES || !IsLong(dir[cur - 1])
    ensures acc + WalkText(dir, cur, guard) == acc
  {
  }

  /** `walk` gives the text of the entries before each position. */
  ghost predicate IsWalk(dir: seq<Entry>, walk: (nat, nat) -> seq<nat>) {
    && IsRegion(dir)
    && forall cur: nat, guard: nat {:trigger WalkText(dir, cur, guard)} ::
         cur <= |dir| && guard <= MAX_ENTRIES ==> walk(cur, guard) == WalkText(dir, cur, guard)
  }

  /** One turn of the walk of the source; `more` tells whether it goes on. */
  method WalkTurn(dir: seq<Entry>, cur: nat, guard: nat, lname: array<nat>, pos: nat, ghost walk: (nat, nat) -> seq<nat>)
    returns (more: bool, pos': nat)
    requires IsWalk(dir, walk) && 0 < cur <= |dir| && guard < MAX_ENTRIES && lname.Length == NAME_BUFFER && pos <= 13 * guard
    modifies lname
    ensures pos' <= pos + 13
    ensures old(lname[..pos]) + walk(cur, guard) == if more then lname[..pos'] + walk(cur - 1, guard + 1) else lname[..pos']
  {
    var l := dir[cur - 1];
    if l[11] != ATTR_LONG_NAME || l[0] == DELETED {
      WalkEnds(dir, cur, guard, lname[..pos]);
      return false, pos;
    }
    WalkStep(dir, cur, guard, lname[..pos]);
    pos' := LfnChars(l, lname, pos);
    more := l[0] / 64 % 2 != 1;
  }

  /** The loop of the walk. */
  method WalkLoop(dir: seq<Entry>, s: nat, lname: array<nat>, ghost walk: (nat, nat) -> seq<nat>)
    returns (pos: nat, cur: nat, guard: nat, more: bool)
    requires IsWalk(dir, walk) && s <= |dir| && lname.Length == NAME_BUFFER
    modifies lname
    ensures cur <= s && guard <= MAX_ENTRIES && pos <= 13 * guard && (more ==> cur == 0 || guard == MAX_ENTRIES)
    ensures walk(s, FIRST) == if more then lname[..pos] + walk(cur, guard) else lname[..pos]
  {
    cur, guard, more, pos := s, 0, true, 0;
    assert lname[..0] + walk(s, FIRST) == walk(s, FIRST);
    while more && cur > 0 && guard < MAX_ENTRIES
      invariant cur <= s && guard <= MAX_ENTRIES && pos <= 13 * guard
      invariant walk(s, FIRST) == if more then lname[..pos] + walk(cur, guard) else lname[..pos]
      decreases MAX_ENTRIES - guard
    {
      more, pos := WalkTurn(dir, cur, guard, lname, pos, walk);
      cur, guard := cur - 1, guard + 1;
    }
  }

  /** The walk of the source. */
  method WalkBack(dir: seq<Entry>, s: nat, lname: array<nat>) returns (pos: nat)
    requires IsRegion(dir) && s <= |dir| && lname.Length == NAME_BUFFER
    modifies lname
    ensures pos <= 416 && lname[..pos] == WalkText(dir, s, FIRST)
  {
    ghost var walk := (cur: nat, guard: nat) => if cur <= |dir| && guard <= MAX_ENTRIES then WalkText(dir, cur, guard) else [];
    var cur, guard, more;
    pos, cur, guard, more := WalkLoop(dir, s, lname, walk);
    if more {
      WalkEnds(dir, cur, guard, lname[..pos]);
    }
  }

  lemma Reassociate(a: seq<nat>, b: seq<nat>, c: seq<nat>)
    ensures a + (b + c) == (a + b) + c
  {
  }

  /** The fallback to the 8.3 name. */
  method CopyShort(sd: Entry, lname: array<nat>) returns (k: nat)
    requires |sd| == 32 && lname.Length == NAME_BUFFER
    modifies lname
    ensures k <= 12 && lname[..k] == ShortText(sd)
  {
    k := CopyUpTo(sd[..8], lname, 0);
    assert lname[..0] == [];
    if sd[8] != 32 {
      Put(lname, k, 46);
      k := CopyUpTo(sd[8..11], lname, k + 1);
    }
  }

  /** Copy characters up to the first space. */
  method CopyUpTo(from: seq<nat>, lname: array<nat>, pos: nat) returns (k: nat)
    requires pos + |from| <= lname.Length
    modifies lname
    ensures k == pos + |UpTo(from, 32)| && k <= lname.Length && lname[..k] == old(lname[..pos]) + UpTo(from, 32)
  {
    k := pos;
    var i := 0;
    while i < |from| && from[i] != 32
      invariant i <= |from| && k == pos + i && lname[..k] == old(lname[..pos]) + from[..i]
      invariant 32 !in from[..i]
    {
      Put(lname, k, from[i]);
      k := k + 1;
      i := i + 1;
    }
    UpToIs(from, 32, i);
  }

  lemma {:induction false} UpToIs(s: seq<nat>, x: nat, i: nat)
    requires i <= |s| && x !in s[..i] && (i < |s| ==> s[i] == x)
    ensures UpTo(s, x) == s[..i]
  {
    if i > 0 {
      assert s[0] == s[..i][0];
      assert s[1..][..i - 1] == s[..i][1..];
      UpToIs(s[1..], x, i - 1);
    }
  }

  /** `strlen` of the buffer, terminated at `pos`. */
  method StrLen(lname: array<nat>, pos: nat) returns (n: nat)
    requires pos <= lname.Length
    ensures n <= pos && lname[..n] == UpTo(lname[..pos], 0)
  {
    n := 0;
    while n < pos && lname[n] != 0
      invariant n <= pos && 0 !in lname[..n]
    {
      n := n + 1;
    }
    assert lname[..pos][..n] == lname[..n];
    UpToIs(lname[..pos], 0, n);
  }

  /** The checks on the file entry. */
  method CheckEntry(sd: Entry, imageSize: nat) returns (ok: bool)
    requires |sd| == 32
    ensures ok == IsFile(sd, imageSize)
  {
    if sd[11] % 16 == 15 {
      return false;
    }
    if sd[11] / 16 % 2 == 1 || sd[11] / 8 % 2 == 1 {
      return false;
    }
    var first, size := Cluster(sd), FileSize(sd);
    ok := !(first < 2 || size == 0 || size > imageSize);
  }

  /** The check on the extension. */
  method CheckName(name: seq<nat>) returns (ok: bool)
    ensures ok == EndsInBmp(name)
  {
    var n := |name|;
    if n < 5 {
      return false;
    }
    ok := name[n - 4] == 46 && Lower(name[n - 3]) == 98 && Lower(name[n - 2]) == 109 && Lower(name[n - 1]) == 112;
  }

  /** `read_bmp_entry`, for the entry at position `s`. */
  method ReadBmpEntry(dir: seq<Entry>, s: nat, imageSize: nat) returns (r: Option<Found>)
    requires IsRegion(dir) && s < |dir|
    ensures r == Recovered(dir, s, imageSize)
  {
    var ok := CheckEntry(dir[s], imageSize);
    if !ok {
      return None;
    }
    var name := BuildName(dir, s);
    ok := CheckName(name);
    r := if ok then Some(Found(name, Cluster(dir[s]), FileSize(dir[s]))) else None;
  }

  /** The name buffer of `read_bmp_entry`. */
  method BuildName(dir: seq<Entry>, s: nat) returns (name: seq<nat>)
    requires IsRegion(dir) && s < |dir|
    ensures name == NameOf(dir, s)
  {
    var lname := new nat[NAME_BUFFER];
    var pos := WalkBack(dir, s, lname);
    if pos == 0 {
      pos := CopyShort(dir[s], lname);
    }
    var n := StrLen(lname, pos);
    name := lname[..n];
  }
}
