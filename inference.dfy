/**
 * The single-request price predictor of src/api/inference.py: the
 * "model not loaded" guard, the hand-rolled 10-feature encoding, rounding
 * of the regressor's output to cents, the fixed +/-10% confidence band and
 * the static feature-importance map.
 *
 * Python floats are modelled as exact reals; the trained regressor is an
 * opaque function on the feature vector.
 */
module Inference {
  import opened Wrappers

  /** The fields of a HousePredictionRequest that predict_price reads. */
  datatype HouseRequest = HouseRequest(
    sqft: real,
    bedrooms: int,
    bathrooms: real,
    location: string,
    yearBuilt: int,
    condition: string)

  /** The two-element list [low, high]. */
  datatype ConfidenceInterval = ConfidenceInterval(low: real, high: real)

  datatype PredictionResponse = PredictionResponse(
    predictedPrice: real,
    confidenceInterval: ConfidenceInterval,
    featuresImportance: map<string, real>)

  /** The RuntimeError raised when the model file could not be loaded. */
  datatype PredictError = ModelNotLoaded

  /** model.predict on a single row, reduced to its first (only) output. */
  type Regressor = seq<real> -> real

  /** The literal year house_age is measured from (not the clock). */
  const ReferenceYear: int := 2025

  /** Column order the trained model expects: EncodeFeatures(req)[k] is feature FeatureNames[k]. */
  const FeatureNames: seq<string> := [
    "sqft", "bedrooms", "bathrooms", "house_age", "bed_bath_ratio",
    "location_urban", "location_suburban", "location_rural",
    "condition_good", "condition_excellent"]

  /** The constant map returned with every prediction. */
  const FeaturesImportance: map<string, real> :=
    map["sqft" := 0.4, "age" := 0.3, "bedrooms" := 0.2, "bathrooms" := 0.1]

  // ---------------------------------------------------------------------
  // Case-insensitive comparison (str.lower restricted to ASCII)

  predicate IsUpper(c: char) {
    'A' <= c <= 'Z'
  }

  function LowerChar(c: char): (d: char)
    ensures !IsUpper(d)
    ensures !IsUpper(c) ==> d == c
    ensures IsUpper(c) ==> d as int == c as int + 32
  {
    if IsUpper(c) then (c as int + 32) as char else c
  }

  function Lower(s: string): (r: string)
    ensures |r| == |s|
    ensures forall i :: 0 <= i < |s| ==> r[i] == LowerChar(s[i])
  {
    if s == [] then [] else [LowerChar(s[0])] + Lower(s[1..])
  }

  /** A string with no upper-case letter is its own lower-case form. */
  lemma LowerOfLowercase(s: string)
    requires forall i :: 0 <= i < |s| ==> !IsUpper(s[i])
    ensures Lower(s) == s
  {
  }

  /** Lower-casing twice is lower-casing once. */
  lemma LowerIdempotent(s: string)
    ensures Lower(Lower(s)) == Lower(s)
  {
    LowerOfLowercase(Lower(s));
  }

  /** 1 if the case-insensitive comparison succeeds, otherwise 0. */
  function Indicator(b: bool): (v: real)
    ensures v == 0.0 || v == 1.0
    ensures v == 1.0 <==> b
  {
    if b then 1.0 else 0.0
  }

  // ---------------------------------------------------------------------
  // Derived numeric features

  /** 2025 - year_built: the age in whole years, negative for a year after 2025. */
  function HouseAge(req: HouseRequest): (age: int)
    ensures req.yearBuilt + age == ReferenceYear
    ensures age >= 0 <==> req.yearBuilt <= ReferenceYear
  {
    ReferenceYear - req.yearBuilt
  }

  /** Python's max(a, b): the first argument unless the second is larger. */
  function Max(a: real, b: real): (m: real)
    ensures m >= a && m >= b
    ensures m == a || m == b
  {
    if b > a then b else a
  }

  /** bedrooms / max(bathrooms, 1). */
  function BedBathRatio(bedrooms: int, bathrooms: real): (r: real)
    ensures bathrooms < 1.0 ==> r == bedrooms as real
    ensures bathrooms >= 1.0 ==> r * bathrooms == bedrooms as real
  {
    bedrooms as real / Max(bathrooms, 1.0)
  }

  // ---------------------------------------------------------------------
  // The feature vector

  function EncodeFeatures(req: HouseRequest): (f: seq<real>)
    ensures |f| == 10
  {
    var loc := Lower(req.location);
    var cond := Lower(req.condition);
    [ req.sqft,
      req.bedrooms as real,
      req.bathrooms,
      HouseAge(req) as real,
      BedBathRatio(req.bedrooms, req.bathrooms),
      Indicator(loc == "urban"),
      Indicator(loc == "suburban"),
      Indicator(loc == "rural"),
      Indicator(cond == "good"),
      Indicator(cond == "excellent") ]
  }

  /** One name per encoded feature, so EncodeFeatures(req)[k] is the feature named FeatureNames[k]. */
  lemma FeatureNamesMatchEncoding(req: HouseRequest)
    ensures |FeatureNames| == |EncodeFeatures(req)|
  {
  }

  /** The numeric columns: sqft, bedrooms, bathrooms, house_age and bed_bath_ratio (entries 0-4). */
  lemma NumericFeatures(req: HouseRequest)
    ensures FeatureNames[..5] == ["sqft", "bedrooms", "bathrooms", "house_age", "bed_bath_ratio"]
    ensures var f := EncodeFeatures(req);
      && f[0] == req.sqft
      && f[1] == req.bedrooms as real
      && f[2] == req.bathrooms
      && f[3] == (ReferenceYear - req.yearBuilt) as real
      && (req.bathrooms < 1.0 ==> f[4] == req.bedrooms as real)
      && (req.bathrooms >= 1.0 ==> f[4] * req.bathrooms == req.bedrooms as real)
  {
  }

  /**
   * The three location columns location_urban, location_suburban and
   * location_rural (entries 5-7) form a one-hot encoding with an "other" case.
   */
  lemma LocationOneHot(req: HouseRequest)
    ensures FeatureNames[5..8] == ["location_urban", "location_suburban", "location_rural"]
    ensures var f := EncodeFeatures(req);
      var loc := Lower(req.location);
      && (forall k :: 5 <= k < 8 ==> f[k] == 0.0 || f[k] == 1.0)
      && f[5] + f[6] + f[7] <= 1.0
      && (f[5] == 1.0 <==> loc == "urban")
      && (f[6] == 1.0 <==> loc == "suburban")
      && (f[7] == 1.0 <==> loc == "rural")
      && (f[5] + f[6] + f[7] == 0.0 <==> loc !in {"urban", "suburban", "rural"})
  {
  }

  /**
   * The two condition columns condition_good and condition_excellent
   * (entries 8-9): at most one is set, "fair" and unknown values set none.
   */
  lemma ConditionOneHot(req: HouseRequest)
    ensures FeatureNames[8..] == ["condition_good", "condition_excellent"]
    ensures var f := EncodeFeatures(req);
      var cond := Lower(req.condition);
      && (f[8] == 0.0 || f[8] == 1.0)
      && (f[9] == 0.0 || f[9] == 1.0)
      && f[8] + f[9] <= 1.0
      && (f[8] == 1.0 <==> cond == "good")
      && (f[9] == 1.0 <==> cond == "excellent")
      && (f[8] + f[9] == 0.0 <==> cond !in {"good", "excellent"})
  {
  }

  /**
   * Only the lower-case forms of the categorical fields matter: two requests
   * that agree on the numeric fields and on the categories up to ASCII case
   * get the same feature vector.
   */
  lemma EncodingIsCaseInsensitive(a: HouseRequest, b: HouseRequest)
    requires a.sqft == b.sqft && a.bedrooms == b.bedrooms && a.bathrooms == b.bathrooms
    requires a.yearBuilt == b.yearBuilt
    requires Lower(a.location) == Lower(b.location)
    requires Lower(a.condition) == Lower(b.condition)
    ensures EncodeFeatures(a) == EncodeFeatures(b)
  {
  }

  /** Normalising the categories before encoding changes nothing. */
  lemma {:induction false} EncodingOfNormalisedRequest(req: HouseRequest)
    ensures EncodeFeatures(req) ==
      EncodeFeatures(req.(location := Lower(req.location), condition := Lower(req.condition)))
  {
    LowerIdempotent(req.location);
    LowerIdempotent(req.condition);
  }

  lemma LowerSubUrban()
    ensures Lower("SubUrban") == "suburban"
  {
    var loc := Lower("SubUrban");
    assert forall i :: 0 <= i < 8 ==> loc[i] == LowerChar("SubUrban"[i]);
  }

  lemma LowerExcellent()
    ensures Lower("EXCELLENT") == "excellent"
  {
    var cond := Lower("EXCELLENT");
    assert cond[0] == 'e' && cond[1] == 'x' && cond[2] == 'c' && cond[3] == 'e' && cond[4] == 'l';
    assert cond[5] == 'l' && cond[6] == 'e' && cond[7] == 'n' && cond[8] == 't';
  }

  /** Mixed-case spellings are recognised. */
  lemma MixedCaseCategories(req: HouseRequest)
    requires req.location == "SubUrban" && req.condition == "EXCELLENT"
    ensures EncodeFeatures(req)[5..] == [0.0, 1.0, 0.0, 0.0, 1.0]
  {
    LowerSubUrban();
    LowerExcellent();
    LocationOneHot(req);
    ConditionOneHot(req);
    var f := EncodeFeatures(req);
    assert f[6] == 1.0 && f[9] == 1.0;
    assert f[5..] == [f[5], f[6], f[7], f[8], f[9]];
  }

  /** "Waterfront" and "Fair" fall into the "none of the above" case. */
  lemma UnknownCategories(req: HouseRequest)
    requires req.location == "Waterfront" && req.condition == "Fair"
    ensures EncodeFeatures(req)[5..] == [0.0, 0.0, 0.0, 0.0, 0.0]
  {
    assert |Lower(req.location)| == 10;
    assert Lower(req.condition)[0] == 'f';
  }

  /** The worked example: 2000 sqft, 3 bed, 2 bath, Urban, built 2000, Good. */
  lemma WorkedExample()
    ensures EncodeFeatures(HouseRequest(2000.0, 3, 2.0, "Urban", 2000, "Good")) ==
      [2000.0, 3.0, 2.0, 25.0, 1.5, 1.0, 0.0, 0.0, 1.0, 0.0]
  {
    assert Lower("Urban") == "urban";
    assert Lower("Good") == "good";
  }

  /** Zero bathrooms divide by 1, so the ratio is the bedroom count, not 0. */
  lemma ZeroBathrooms(req: HouseRequest)
    requires req.bathrooms == 0.0
    ensures EncodeFeatures(req)[4] == req.bedrooms as real
  {
  }

  // ---------------------------------------------------------------------
  // Rounding to two decimals (Python's round(x, 2): nearest, ties to even)

  /** The integer nearest to y; a tie goes to the even neighbour. */
  function RoundHalfEven(y: real): (n: int)
    ensures -0.5 <= n as real - y <= 0.5
    ensures (n as real - y == 0.5 || y - n as real == 0.5) ==> n % 2 == 0
  {
    var f := y.Floor;
    var d := y - f as real;
    if d < 0.5 then f
    else if d > 0.5 then f + 1
    else if f % 2 == 0 then f
    else f + 1
  }

  predicate IsCents(x: real) {
    (x * 100.0).Floor as real == x * 100.0
  }

  /** round(x, 2): the whole number of cents nearest to x, a tie going to the even cent. */
  function Round2(x: real): (r: real)
    ensures IsCents(r)
    ensures -0.005 <= r - x <= 0.005
    ensures r * 100.0 == RoundHalfEven(x * 100.0) as real
  {
    var y := x * 100.0;
    var n := RoundHalfEven(y);
    var r := n as real / 100.0;
    assert r * 100.0 == n as real;
    assert r - x == (n as real - y) / 100.0;
    r
  }

  /** Rounding a value that already is a whole number of cents changes nothing. */
  lemma Round2OfCents(x: real)
    requires IsCents(x)
    ensures Round2(x) == x
  {
    var k := (x * 100.0).Floor;
    var n := RoundHalfEven(x * 100.0);
    assert -0.5 <= n as real - k as real <= 0.5;
    assert n == k;
  }

  /**
   * For a non-negative price already rounded to cents, the rounded band
   * [round(p * 0.9, 2), round(p * 1.1, 2)] contains p.
   */
  lemma {:induction false} BandContainsPrice(p: real)
    requires IsCents(p) && p >= 0.0
    ensures Round2(p * 0.9) <= p <= Round2(p * 1.1)
  {
    var k := (p * 100.0).Floor;
    assert k as real == p * 100.0;
    var lo := RoundHalfEven(p * 0.9 * 100.0);
    assert p * 0.9 * 100.0 == 0.9 * k as real;
    assert lo as real <= k as real + 0.5;
    assert lo <= k;
    assert Round2(p * 0.9) == lo as real / 100.0;
    var hi := RoundHalfEven(p * 1.1 * 100.0);
    assert p * 1.1 * 100.0 == 1.1 * k as real;
    assert hi as real >= k as real - 0.5;
    assert hi >= k;
    assert Round2(p * 1.1) == hi as real / 100.0;
  }

  /** For a negative price the band comes out reversed: the heuristic only holds for p >= 0. */
  lemma {:induction false} NegativeBandIsReversed(p: real)
    requires IsCents(p) && p < 0.0
    ensures Round2(p * 1.1) <= p <= Round2(p * 0.9)
  {
    var k := (p * 100.0).Floor;
    assert k as real == p * 100.0;
    var lo := RoundHalfEven(p * 0.9 * 100.0);
    assert p * 0.9 * 100.0 == 0.9 * k as real;
    assert lo as real >= k as real - 0.5;
    assert lo >= k;
    assert Round2(p * 0.9) == lo as real / 100.0;
    var hi := RoundHalfEven(p * 1.1 * 100.0);
    assert p * 1.1 * 100.0 == 1.1 * k as real;
    assert hi as real <= k as real + 0.5;
    assert hi <= k;
    assert Round2(p * 1.1) == hi as real / 100.0;
  }

  /** Both cases of the band's order for a price already rounded to cents. */
  lemma BandOrder(p: real)
    requires IsCents(p)
    ensures p >= 0.0 ==> Round2(p * 0.9) <= p <= Round2(p * 1.1)
    ensures p < 0.0 ==> Round2(p * 1.1) <= p <= Round2(p * 0.9)
  {
    if p >= 0.0 {
      BandContainsPrice(p);
    } else {
      NegativeBandIsReversed(p);
    }
  }

  // ---------------------------------------------------------------------
  // predict_price

  function PredictPrice(model: Option<Regressor>, req: HouseRequest): (r: Result<PredictionResponse, PredictError>)
    ensures r.Failure? <==> model.None?
    ensures r.Failure? ==> r.error == ModelNotLoaded
    ensures r.Success? ==>
      var p := r.value.predictedPrice;
      var raw := model.value(EncodeFeatures(req));
      var ci := r.value.confidenceInterval;
      && p == Round2(raw)
      && ci.low == Round2(p * 0.9) && ci.high == Round2(p * 1.1)
      && IsCents(p) && -0.005 <= p - raw <= 0.005
      && IsCents(ci.low) && -0.005 <= ci.low - 0.9 * p <= 0.005
      && IsCents(ci.high) && -0.005 <= ci.high - 1.1 * p <= 0.005
      && (p >= 0.0 ==> ci.low <= p <= ci.high)
      && r.value.featuresImportance == FeaturesImportance
  {
    match model
    case None => Failure(ModelNotLoaded)
    case Some(predict) =>
      var p := Round2(predict(EncodeFeatures(req)));
      BandOrder(p);
      Success(PredictionResponse(
        p,
        ConfidenceInterval(Round2(p * 0.9), Round2(p * 1.1)),
        FeaturesImportance))
  }

  /**
   * The response depends on the model only through its value on this
   * request's feature vector, and the importance map never varies.
   */
  lemma ResponseDependsOnlyOnPrediction(m1: Regressor, m2: Regressor, a: HouseRequest, b: HouseRequest)
    requires m1(EncodeFeatures(a)) == m2(EncodeFeatures(b))
    ensures PredictPrice(Some(m1), a) == PredictPrice(Some(m2), b)
  {
  }
}
