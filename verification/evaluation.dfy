/** The accuracy count over the test set: the number of test images whose
    predicted class equals their label. The trained network is a parameter,
    `predict`, standing for a call of the net on one image. */
module Evaluation {
  import opened Image

  /** The test indices below n whose predicted class equals the label. */
  ghost function Hits(images: seq<Matrix>, labels: seq<nat>, predict: Matrix -> nat, n: nat): set<nat>
    requires n <= |images| <= |labels|
  {
    set i: nat | i < n && predict(images[i]) == labels[i]
  }

  /** Looking at one more test image adds its index to the hits exactly when
      the prediction for it is right. */
  lemma HitsStep(images: seq<Matrix>, labels: seq<nat>, predict: Matrix -> nat, n: nat)
    requires n < |images| <= |labels|
    ensures n !in Hits(images, labels, predict, n)
    ensures Hits(images, labels, predict, n + 1) ==
      if predict(images[n]) == labels[n] then Hits(images, labels, predict, n) + {n}
      else Hits(images, labels, predict, n)
  {
  }

  /** At most n of the first n predictions are right, and all n are right
      exactly when every one of them matches its label. */
  lemma {:induction false} HitsCount(images: seq<Matrix>, labels: seq<nat>, predict: Matrix -> nat, n: nat)
    requires n <= |images| <= |labels|
    ensures |Hits(images, labels, predict, n)| <= n
    ensures |Hits(images, labels, predict, n)| == n <==>
      forall i | 0 <= i < n :: predict(images[i]) == labels[i]
  {
    if n > 0 {
      HitsCount(images, labels, predict, n - 1);
      HitsStep(images, labels, predict, n - 1);
    }
  }

  /** No prediction is right exactly when there are no hits. */
  lemma NoHits(images: seq<Matrix>, labels: seq<nat>, predict: Matrix -> nat)
    requires |images| <= |labels|
    ensures |Hits(images, labels, predict, |images|)| == 0 <==>
      forall i | 0 <= i < |images| :: predict(images[i]) != labels[i]
  {
    var hits := Hits(images, labels, predict, |images|);
    assert forall i | 0 <= i < |images| :: i in hits <==> predict(images[i]) == labels[i];
    if |hits| != 0 {
      var i :| i in hits;
    }
  }

  /** The counting loop of the evaluation: one pass over the test images,
      incrementing `correct` for each image whose prediction equals its
      label. */
  method CountCorrect(images: seq<Matrix>, labels: seq<nat>, predict: Matrix -> nat) returns (correct: nat)
    requires |images| <= |labels|
    ensures correct == |Hits(images, labels, predict, |images|)|
    ensures correct <= |images|
    ensures correct == |images| <==> forall i | 0 <= i < |images| :: predict(images[i]) == labels[i]
  {
    correct := 0;
    for i := 0 to |images|
      invariant correct == |Hits(images, labels, predict, i)|
    {
      HitsStep(images, labels, predict, i);
      if predict(images[i]) == labels[i] {
        correct := correct + 1;
      }
    }
    HitsCount(images, labels, predict, |images|);
  }
}
