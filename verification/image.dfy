/** The 28x28 image matrix load_csv builds from the flat pixel buffer, in
    row-major order. */
module Image {

  /** An `unsigned char`. */
  type Byte = x: int | 0 <= x < 256

  const Rows := 28
  const Cols := 28
  /** Rows * Cols. */
  const PixelCount := 784

  /** A matrix as a sequence of rows. */
  type Matrix = seq<seq<Byte>>

  /** A flat buffer of exactly one image's pixels. */
  type Pixels = s: seq<Byte> | |s| == PixelCount witness seq(PixelCount, _ => 0)

  /** `static_cast<unsigned char>` of an unsigned value: reduction modulo 256. */
  function Narrow(v: nat): (b: Byte)
    ensures v < 256 ==> b == v
    ensures (v - b) % 256 == 0
  {
    v % 256
  }

  predicate IsImage(m: Matrix) {
    |m| == Rows && forall r | 0 <= r < |m| :: |m[r]| == Cols
  }

  /** The matrix whose cell (row, col) holds pixel row * 28 + col. */
  function Reshape(flat: Pixels): (m: Matrix)
    ensures IsImage(m)
    ensures forall r, c | 0 <= r < Rows && 0 <= c < Cols :: m[r][c] == flat[r * Cols + c]
  {
    seq(Rows, r requires 0 <= r < Rows => flat[r * Cols .. r * Cols + Cols])
  }

  /** The rows of a matrix laid end to end. */
  function Flatten(m: Matrix): seq<Byte>
  {
    if m == [] then [] else Flatten(m[..|m| - 1]) + m[|m| - 1]
  }

  lemma {:induction false} FlattenAt(m: Matrix, r: nat, c: nat)
    requires forall i | 0 <= i < |m| :: |m[i]| == Cols
    requires r < |m| && c < Cols
    ensures |Flatten(m)| == |m| * Cols
    ensures r * Cols + c < |Flatten(m)| && Flatten(m)[r * Cols + c] == m[r][c]
  {
    var init := m[..|m| - 1];
    if r < |m| - 1 {
      FlattenAt(init, r, c);
    } else if |m| > 1 {
      FlattenAt(init, 0, 0);
    }
    assert Flatten(m) == Flatten(init) + m[|m| - 1];
  }

  /** Flattening the reshaped matrix row by row gives back the buffer. */
  lemma FlattenReshape(flat: Pixels)
    ensures Flatten(Reshape(flat)) == flat
  {
    var m := Reshape(flat);
    FlattenAt(m, 0, 0);
    forall k | 0 <= k < PixelCount
      ensures Flatten(m)[k] == flat[k]
    {
      var r, c := k / Cols, k % Cols;
      FlattenAt(m, r, c);
      assert r * Cols + c == k;
    }
  }

  /** Reshaping the flattened image gives back the image. */
  lemma ReshapeFlatten(m: Matrix)
    requires IsImage(m)
    ensures |Flatten(m)| == PixelCount && Reshape(Flatten(m)) == m
  {
    FlattenAt(m, 0, 0);
    var flat: Pixels := Flatten(m);
    forall r | 0 <= r < Rows
      ensures Reshape(flat)[r] == m[r]
    {
      forall c | 0 <= c < Cols
        ensures Reshape(flat)[r][c] == m[r][c]
      {
        FlattenAt(m, r, c);
      }
    }
  }

  /** The reshape loop of load_csv: a fresh 28x28 matrix filled cell by cell
      from the flat buffer, handed back as its rows. */
  method ReshapeImage(image: array<Byte>) returns (m: Matrix)
    requires image.Length == PixelCount
    ensures IsImage(m)
    ensures m == Reshape(image[..])
  {
    var img := new Byte[Rows, Cols];
    for row := 0 to Rows
      invariant forall r, c | 0 <= r < row && 0 <= c < Cols :: img[r, c] == image[r * Cols + c]
    {
      for col := 0 to Cols
        invariant forall r, c | 0 <= r < row && 0 <= c < Cols :: img[r, c] == image[r * Cols + c]
        invariant forall c | 0 <= c < col :: img[row, c] == image[row * Cols + c]
      {
        img[row, col] := image[row * Cols + col];
      }
    }
    m := seq(Rows, r requires 0 <= r < Rows reads img =>
           seq(Cols, c requires 0 <= c < Cols reads img => img[r, c]));
    forall r | 0 <= r < Rows
      ensures m[r] == Reshape(image[..])[r]
    {
      assert forall c | 0 <= c < Cols :: m[r][c] == image[r * Cols + c];
    }
  }
}
