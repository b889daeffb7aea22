/** Points, 2x2 structure tensors and 3x3 homographies over exact reals.
    The source stores these as single-precision OpenCV values (cv::Point2f,
    cv::Matx<float,2,2>, cv::Matx<float,3,3> / a 3x3 CV_32FC1 cv::Mat). */
module Geometry {

  /** A 2D point, cv::Point2f. */
  datatype Point = Point(x: real, y: real)

  const Origin: Point := Point(0.0, 0.0)

  /** A 2x2 matrix (a00 a01; a10 a11), cv::Matx<float,2,2>. */
  datatype Tensor = Tensor(a00: real, a01: real, a10: real, a11: real) {
    predicate Symmetric() { a01 == a10 }
    function Trace(): real { a00 + a11 }
    /** e^T * this * e, the quadratic form of an error vector. */
    function Quadratic(e: Point): real {
      a00 * e.x * e.x + (a01 + a10) * e.x * e.y + a11 * e.y * e.y
    }
  }

  /** The value a default-constructed cv::Matx<float,2,2> holds. */
  const ZeroTensor: Tensor := Tensor(0.0, 0.0, 0.0, 0.0)

  /** Homogeneous coordinates (x, y, w). */
  datatype Homog = Homog(x: real, y: real, w: real)

  /** A 3x3 matrix, row-major. */
  datatype Mat3 = Mat3(m00: real, m01: real, m02: real,
                       m10: real, m11: real, m12: real,
                       m20: real, m21: real, m22: real)
  {
    /** The image of point p in homogeneous coordinates. */
    function Apply(p: Point): Homog {
      Homog(m00 * p.x + m01 * p.y + m02,
            m10 * p.x + m11 * p.y + m12,
            m20 * p.x + m21 * p.y + m22)
    }
  }

  const Identity: Mat3 := Mat3(1.0, 0.0, 0.0, 0.0, 1.0, 0.0, 0.0, 0.0, 1.0)

  /** Matrix product a * b. */
  function Mul(a: Mat3, b: Mat3): Mat3 {
    Mat3(a.m00 * b.m00 + a.m01 * b.m10 + a.m02 * b.m20,
         a.m00 * b.m01 + a.m01 * b.m11 + a.m02 * b.m21,
         a.m00 * b.m02 + a.m01 * b.m12 + a.m02 * b.m22,
         a.m10 * b.m00 + a.m11 * b.m10 + a.m12 * b.m20,
         a.m10 * b.m01 + a.m11 * b.m11 + a.m12 * b.m21,
         a.m10 * b.m02 + a.m11 * b.m12 + a.m12 * b.m22,
         a.m20 * b.m00 + a.m21 * b.m10 + a.m22 * b.m20,
         a.m20 * b.m01 + a.m21 * b.m11 + a.m22 * b.m21,
         a.m20 * b.m02 + a.m21 * b.m12 + a.m22 * b.m22)
  }

  lemma MulIdentityLeft(a: Mat3)
    ensures Mul(Identity, a) == a
  {
  }

  lemma MulIdentityRight(a: Mat3)
    ensures Mul(a, Identity) == a
  {
  }

  /** The eight free parameters of a homography, cv::Matx<float,8,1>. */
  type Vec8 = s: seq<real> | |s| == 8 witness [0.0, 0.0, 0.0, 0.0, 0.0, 0.0, 0.0, 0.0]

  const ZeroParams: Vec8 := [0.0, 0.0, 0.0, 0.0, 0.0, 0.0, 0.0, 0.0]

  /** The homography a parameter vector h stands for: the identity perturbed
      by h, with the scale fixed by a bottom-right entry of 1. */
  function FromParams(h: Vec8): (m: Mat3)
    ensures m.m22 == 1.0
    ensures m == Identity <==> h == ZeroParams
  {
    var m := Mat3(1.0 + h[0], h[1], h[2],
                  h[3], 1.0 + h[4], h[5],
                  h[6], h[7], 1.0);
    assert m == Identity ==> h == ZeroParams by {
      if m == Identity {
        assert forall k | 0 <= k < 8 :: h[k] == ZeroParams[k];
      }
    }
    m
  }

  /** The parameters of a homography whose bottom-right entry is 1. */
  function ToParams(m: Mat3): Vec8 {
    [m.m00 - 1.0, m.m01, m.m02, m.m10, m.m11 - 1.0, m.m12, m.m20, m.m21]
  }

  lemma ParamsRoundTrip(h: Vec8)
    ensures ToParams(FromParams(h)) == h
  {
    assert forall k | 0 <= k < 8 :: ToParams(FromParams(h))[k] == h[k];
  }

  lemma MatrixRoundTrip(m: Mat3)
    requires m.m22 == 1.0
    ensures FromParams(ToParams(m)) == m
  {
  }
}
