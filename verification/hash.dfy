/** The change fingerprint `crop_hash` (device/crop_sync.c:29-37): an FNV-1a
    style hash in wrapping 64-bit arithmetic, one XOR and one multiplication per
    field, in the order valid, x, y, width, height. */
module CropHash {
  import opened CropTypes

  const FnvOffsetBasis: bv64 := 1469598103934665603
  const FnvPrime: bv64 := 1099511628211

  /** `(uint64_t)(uint32_t)v` for a signed 32-bit field. */
  function FieldBits(v: int32): (b: bv64)
  {
    (v % 0x1_0000_0000) as bv64
  }

  function Mix(acc: bv64, field: bv64): bv64
  {
    (acc ^ field) * FnvPrime
  }

  /** Folds the fields into the accumulator, one XOR-and-multiply per field. */
  function MixAll(acc: bv64, fields: seq<bv64>): bv64
    decreases |fields|
  {
    if fields == [] then acc else MixAll(Mix(acc, fields[0]), fields[1..])
  }

  /** The five hashed fields, each widened to 64 bits. */
  function HashedFields(valid: bool, x: int32, y: int32, w: uint32, h: uint32): (f: seq<bv64>)
    ensures |f| == 5
  {
    [if valid then 1 else 0, FieldBits(x), FieldBits(y), w as bv64, h as bv64]
  }

  function Hash(valid: bool, x: int32, y: int32, w: uint32, h: uint32): bv64
  {
    MixAll(FnvOffsetBasis, HashedFields(valid, x, y, w, h))
  }

  function RectHash(r: Rect): bv64
  {
    Hash(r.valid, r.x, r.y, r.width, r.height)
  }

  /** `on_frame` hashes its signed copies of the frame's x and y
      (device/crop_sync.c:183-185), and `crop_hash` casts them back through
      `uint32_t`: the round trip loses nothing, so the fingerprint is the fold
      over the five fields exactly as the frame reported them. */
  lemma HashSeesRawFields(valid: bool, x: uint32, y: uint32, w: uint32, h: uint32)
    ensures Hash(valid, ToInt32(x), ToInt32(y), w, h)
         == MixAll(FnvOffsetBasis, [if valid then 1 else 0, x as bv64, y as bv64, w as bv64, h as bv64])
  {
    assert FieldBits(ToInt32(x)) == x as bv64;
    assert FieldBits(ToInt32(y)) == y as bv64;
  }

  /** The fingerprint of "no crop" is not 0. A new device stores 0 as the
      last fingerprint, so its first frame takes the change path even when
      it carries no crop. */
  lemma HashOfNoCrop()
    ensures RectHash(ZeroRect) == 8387169000292456873
  {
    assert FieldBits(0) == 0;
  }

  /** Two rectangles that differ but share a fingerprint. Because `on_frame`
      compares fingerprints rather than rectangles, a switch between these two
      crops goes unnoticed (see `CropSyncScenarios.CollisionHidesChange`). */
  const CollidingA: Rect := Rect(true, 0, 1387, 0, 0)
  const CollidingB: Rect := Rect(true, 2, 0, 0, 120066029)

  lemma HashOfA()
    ensures RectHash(CollidingA) == 4594321986509404563
  {
    assert FieldBits(0) == 0;
    assert FieldBits(1387) == 1387;
  }

  lemma HashOfB()
    ensures RectHash(CollidingB) == 4594321986509404563
  {
    assert FieldBits(0) == 0;
    assert FieldBits(2) == 2;
  }

  lemma HashCollision()
    ensures CollidingA != CollidingB
    ensures RectHash(CollidingA) == RectHash(CollidingB) == 4594321986509404563
  {
    HashOfA();
    HashOfB();
  }
}
