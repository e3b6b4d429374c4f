/** The resolution comparer: a cascade of stages, each of which either
    decides the order of two candidates relative to a target resolution or
    passes them on to the next stage. A negative result puts the first
    candidate first. */
module Comparison {
  import opened Common

  datatype Preference = Closest | ClosestLarger | ClosestSmaller

  /** The serialized configuration of a comparer. */
  datatype Comparer = Comparer(
    preferAspectOverResolution: bool,
    respectOrientation: bool,
    preference: Preference)

  /** The default configuration of a new comparer asset. */
  const DefaultComparer := Comparer(false, true, Closest)

  /** The floating-point measures the comparer leaves to the host: the
      length of a vector, and the share of the screen lost when content of
      one aspect ratio is fitted into another. */
  datatype FloatOps = FloatOps(magnitude: (int, int) -> real, excessArea: (real, real) -> real)

  /** What the picker sets on a comparer before sorting: the target size and
      the tolerance of the floating-point stages. */
  datatype Context = Context(target: Resolution, epsilon: real, ops: FloatOps)

  /** The outcome of one stage: the order is decided, or left to the next. */
  datatype Stage = Pass | Decided(result: int)
  {
    /** Runs `next` only when this stage did not decide. */
    function Then(next: Stage): Stage {
      if Decided? then this else next
    }
  }

  predicate IsNegative(r: Resolution) {
    r.width < 0 && r.height < 0
  }

  predicate IsZero(r: Resolution) {
    r.width == 0 && r.height == 0
  }

  /** Null candidates go last. */
  function NullValues(a: Option<Resolution>, b: Option<Resolution>): (s: Stage)
    ensures s.Pass? <==> a.Some? && b.Some?
  {
    if a.None? && b.None? then Decided(0)
    else if b.None? then Decided(-1)
    else if a.None? then Decided(1)
    else Pass
  }

  /** Candidates negative in both dimensions go last. */
  function NegativeValues(a: Resolution, b: Resolution): (s: Stage)
    ensures s.Pass? <==> !IsNegative(a) && !IsNegative(b)
    ensures s == Decided(0) <==> IsNegative(a) && IsNegative(b)
    ensures s == Decided(-1) <==> !IsNegative(a) && IsNegative(b)
  {
    if IsNegative(a) && IsNegative(b) then Decided(0)
    else if IsNegative(b) then Decided(-1)
    else if IsNegative(a) then Decided(1)
    else Pass
  }

  /** A 0x0 candidate goes last. */
  function ZeroValues(a: Resolution, b: Resolution): (s: Stage)
    ensures s.Pass? <==> !IsZero(a) && !IsZero(b)
    ensures s == Decided(0) <==> IsZero(a) && IsZero(b)
    ensures s == Decided(-1) <==> !IsZero(a) && IsZero(b)
  {
    if IsZero(a) && IsZero(b) then Decided(0)
    else if IsZero(b) then Decided(-1)
    else if IsZero(a) then Decided(1)
    else Pass
  }

  /** Equal candidates are equal; the target itself goes first. */
  function EqualValues(target: Resolution, a: Resolution, b: Resolution): (s: Stage)
    ensures s.Pass? <==> a != b && a != target && b != target
    ensures s == Decided(0) <==> a == b
    ensures s == Decided(-1) <==> a != b && a == target
  {
    if a == b then Decided(0)
    else if a == target then Decided(-1)
    else if b == target then Decided(1)
    else Pass
  }

  datatype Orientation = Landscape | Portrait | Square

  function OrientationOf(r: Resolution): (o: Orientation)
    ensures o == Landscape <==> r.width > r.height
    ensures o == Portrait <==> r.height > r.width
    ensures o == Square <==> r.width == r.height
  {
    if r.width > r.height then Landscape
    else if r.height > r.width then Portrait
    else Square
  }

  /** Of two candidates of different orientation, the one that shares the
      target's orientation goes first. */
  function OrientationValues(target: Resolution, a: Resolution, b: Resolution): (s: Stage)
    ensures s.Decided? ==> s.result != 0 && OrientationOf(a) != OrientationOf(b)
    ensures s == Decided(-1) <==> OrientationOf(a) != OrientationOf(b) && OrientationOf(a) == OrientationOf(target)
    ensures s.Pass? <==> OrientationOf(a) == OrientationOf(b)
                          || (OrientationOf(a) != OrientationOf(target) && OrientationOf(b) != OrientationOf(target))
  {
    if OrientationOf(a) == OrientationOf(b) then Pass
    else if OrientationOf(target) == OrientationOf(a) then Decided(-1)
    else if OrientationOf(target) == OrientationOf(b) then Decided(1)
    else Pass
  }

  function Abs(x: real): real {
    if x < 0.0 then -x else x
  }

  predicate NearlyEquals(ctx: Context, x: real, y: real) {
    Abs(x - y) < ctx.epsilon
  }

  /** Width over height; when orientation is ignored, the longer side over
      the shorter. Zero for a candidate with a side that is not positive. */
  function AspectRatio(c: Comparer, width: int, height: int): real {
    if width <= 0 || height <= 0 then 0.0
    else if c.respectOrientation then width as real / height as real
    else if width > height then width as real / height as real
    else height as real / width as real
  }

  /** The candidate that wastes less of the screen goes first. */
  function ExcessAreas(ctx: Context, ratioA: real, ratioB: real, targetRatio: real): Stage {
    var areaA := ctx.ops.excessArea(ratioA, targetRatio);
    var areaB := ctx.ops.excessArea(ratioB, targetRatio);
    if NearlyEquals(ctx, areaA, areaB) then Pass
    else if areaA < areaB then Decided(-1)
    else Decided(1)
  }

  /** The aspect stage as the comparer has it: a candidate whose aspect is
      near the target's goes first, whether or not the other one is near the
      target's too. */
  function AspectRatios(c: Comparer, ctx: Context, a: Resolution, b: Resolution): (s: Stage)
    ensures s.Decided? ==> s.result == -1 || s.result == 1
    ensures NearlyEquals(ctx, AspectRatio(c, a.width, a.height), AspectRatio(c, b.width, b.height)) ==> s.Pass?
    ensures s.Decided? && NearTargetAspect(c, ctx, a) ==> s == Decided(-1)
  {
    var ratioA := AspectRatio(c, a.width, a.height);
    var ratioB := AspectRatio(c, b.width, b.height);
    var targetRatio := AspectRatio(c, ctx.target.width, ctx.target.height);
    if NearlyEquals(ctx, ratioA, ratioB) then Pass
    else if NearlyEquals(ctx, ratioA, targetRatio) then Decided(-1)
    else if NearlyEquals(ctx, ratioB, targetRatio) then Decided(1)
    else ExcessAreas(ctx, ratioA, ratioB, targetRatio)
  }

  /** Whether the candidate's aspect ratio is within epsilon of the target's. */
  predicate NearTargetAspect(c: Comparer, ctx: Context, r: Resolution) {
    NearlyEquals(ctx, AspectRatio(c, r.width, r.height), AspectRatio(c, ctx.target.width, ctx.target.height))
  }

  /** The aspect stage with two candidates that are both near the target's
      aspect treated as of the same aspect. */
  function AspectRatiosCorrected(c: Comparer, ctx: Context, a: Resolution, b: Resolution): (s: Stage)
    ensures s.Decided? ==> s.result == -1 || s.result == 1
    ensures NearTargetAspect(c, ctx, a) && NearTargetAspect(c, ctx, b) ==> s.Pass?
    ensures !NearTargetAspect(c, ctx, a) || !NearTargetAspect(c, ctx, b) ==> s == AspectRatios(c, ctx, a, b)
  {
    if NearTargetAspect(c, ctx, a) && NearTargetAspect(c, ctx, b) then Pass
    else AspectRatios(c, ctx, a, b)
  }

  /** The vector compared against the target: the candidate itself, or,
      when orientation is ignored, its longer side first. */
  function CandidateVector(c: Comparer, width: int, height: int): (v: (int, int))
    ensures c.respectOrientation ==> v == (width, height)
    ensures !c.respectOrientation ==> v.0 >= v.1
    ensures v == (width, height) || v == (height, width)
  {
    if c.respectOrientation then (width, height)
    else if width > height then (width, height)
    else (height, width)
  }

  function VectorDistance(c: Comparer, ctx: Context, width: int, height: int): real {
    var v := CandidateVector(c, width, height);
    ctx.ops.magnitude(ctx.target.width - v.0, ctx.target.height - v.1)
  }

  /** The candidate nearer to the target goes first. */
  function ResolutionsClosest(c: Comparer, ctx: Context, a: Resolution, b: Resolution): Stage {
    var distanceA := VectorDistance(c, ctx, a.width, a.height);
    var distanceB := VectorDistance(c, ctx, b.width, b.height);
    if NearlyEquals(ctx, distanceA, distanceB) then Pass
    else if distanceA < distanceB then Decided(-1)
    else Decided(1)
  }

  predicate AtLeast(r: Resolution, target: Resolution) {
    r.width >= target.width && r.height >= target.height
  }

  predicate AtMost(r: Resolution, target: Resolution) {
    r.width <= target.width && r.height <= target.height
  }

  /** Candidates on the same side of the target are ordered by distance;
      candidates on different sides by the preference. */
  function Resolutions(c: Comparer, ctx: Context, a: Resolution, b: Resolution): (s: Stage)
    ensures s.Decided? ==> s.result == -1 || s.result == 1
    ensures c.preference == ClosestLarger && a != ctx.target && AtLeast(a, ctx.target) && !AtLeast(b, ctx.target)
            ==> s == Decided(-1)
    ensures c.preference == ClosestSmaller && a != ctx.target && AtMost(a, ctx.target) && !AtMost(b, ctx.target)
            ==> s == Decided(-1)
  {
    var t := ctx.target;
    var aLarger, bLarger := AtLeast(a, t), AtLeast(b, t);
    var aSmaller, bSmaller := AtMost(a, t), AtMost(b, t);
    if aLarger && bLarger then ResolutionsClosest(c, ctx, a, b)
    else if aSmaller && bSmaller then ResolutionsClosest(c, ctx, a, b)
    else if !aLarger && !bLarger && !aSmaller && !bSmaller then ResolutionsClosest(c, ctx, a, b)
    else
      match c.preference
      case Closest => ResolutionsClosest(c, ctx, a, b)
      case ClosestLarger =>
        if aLarger then Decided(-1)
        else if bLarger then Decided(1)
        else if bSmaller then Decided(-1)
        else Decided(1)
      case ClosestSmaller =>
        if aSmaller then Decided(-1)
        else if bSmaller then Decided(1)
        else if bLarger then Decided(-1)
        else Decided(1)
  }

  /** The stages after the null test, in the order the configuration gives,
      with `aspect` the outcome of the aspect stage. */
  function Cascade(c: Comparer, ctx: Context, a: Resolution, b: Resolution, aspect: Stage): (s: Stage)
    ensures aspect.Pass? || aspect.result == -1 || aspect.result == 1 ==>
              s.Pass? || s.result == -1 || s.result == 0 || s.result == 1
    ensures s == Decided(0) && (aspect.Pass? || aspect.result != 0) ==>
              (IsNegative(a) && IsNegative(b)) || (IsZero(a) && IsZero(b)) || a == b
  {
    var t := ctx.target;
    var sizeStages :=
      if c.preferAspectOverResolution then aspect.Then(Resolutions(c, ctx, a, b))
      else Resolutions(c, ctx, a, b).Then(aspect);
    NegativeValues(a, b)
      .Then(ZeroValues(a, b))
      .Then(EqualValues(t, a, b))
      .Then(if c.respectOrientation then OrientationValues(t, a, b) else Pass)
      .Then(sizeStages)
      .Then(if !c.respectOrientation then OrientationValues(t, a, b) else Pass)
  }

  function Outcome(s: Stage): int {
    match s
    case Decided(r) => r
    case Pass => 0
  }

  /** The comparer: the null test, then the cascade with the aspect stage
      as the comparer has it. */
  function Compare(c: Comparer, ctx: Context, a: Option<Resolution>, b: Option<Resolution>): (r: int)
    ensures -1 <= r <= 1
  {
    match NullValues(a, b)
    case Decided(r) => r
    case Pass => Outcome(Cascade(c, ctx, a.value, b.value, AspectRatios(c, ctx, a.value, b.value)))
  }

  /** The comparer with the corrected aspect stage. */
  function CompareCorrected(c: Comparer, ctx: Context, a: Option<Resolution>, b: Option<Resolution>): (r: int)
    ensures -1 <= r <= 1
  {
    match NullValues(a, b)
    case Decided(r) => r
    case Pass => Outcome(Cascade(c, ctx, a.value, b.value, AspectRatiosCorrected(c, ctx, a.value, b.value)))
  }

  /** Null candidates: equal to each other, after everything else. */
  lemma CompareNulls(c: Comparer, ctx: Context, x: Resolution)
    ensures Compare(c, ctx, None, None) == 0
    ensures Compare(c, ctx, Some(x), None) == -1
    ensures Compare(c, ctx, None, Some(x)) == 1
  {
  }

  /** Candidates negative in both dimensions: equal to each other, after
      every other candidate. */
  lemma CompareNegatives(c: Comparer, ctx: Context, a: Resolution, b: Resolution)
    requires IsNegative(a)
    ensures IsNegative(b) ==> Compare(c, ctx, Some(a), Some(b)) == 0
    ensures !IsNegative(b) ==> Compare(c, ctx, Some(a), Some(b)) == 1
    ensures !IsNegative(b) ==> Compare(c, ctx, Some(b), Some(a)) == -1
  {
  }

  /** A 0x0 candidate goes after every candidate that is neither 0x0 nor
      negative in both dimensions. */
  lemma CompareZeros(c: Comparer, ctx: Context, a: Resolution, b: Resolution)
    requires IsZero(a) && !IsNegative(b)
    ensures IsZero(b) ==> Compare(c, ctx, Some(a), Some(b)) == 0
    ensures !IsZero(b) ==> Compare(c, ctx, Some(a), Some(b)) == 1
    ensures !IsZero(b) ==> Compare(c, ctx, Some(b), Some(a)) == -1
  {
  }

  /** Every candidate is equal to itself. */
  lemma CompareReflexive(c: Comparer, ctx: Context, x: Option<Resolution>)
    ensures Compare(c, ctx, x, x) == 0
  {
  }

  /** The target itself goes before any other candidate, unless the target is
      one of the sizes that go last (0x0, or negative in both dimensions). */
  lemma CompareTargetFirst(c: Comparer, ctx: Context, b: Resolution)
    requires !IsNegative(ctx.target) && !IsZero(ctx.target)
    requires b != ctx.target
    ensures Compare(c, ctx, Some(ctx.target), Some(b)) == -1
    ensures Compare(c, ctx, Some(b), Some(ctx.target)) == 1
  {
  }

  /** Two candidates that reach the stages after the equality test: sizes
      that do not go last, different from each other and from the target. */
  predicate Ordinary(target: Resolution, a: Resolution, b: Resolution) {
    && !IsNegative(a) && !IsNegative(b)
    && !IsZero(a) && !IsZero(b)
    && a != b && a != target && b != target
  }

  /** With orientation respected, of two candidates of different orientation
      the one that shares the target's goes first. */
  lemma CompareOrientation(c: Comparer, ctx: Context, a: Resolution, b: Resolution)
    requires c.respectOrientation && Ordinary(ctx.target, a, b)
    requires OrientationOf(a) != OrientationOf(b)
    requires OrientationOf(a) == OrientationOf(ctx.target)
    ensures Compare(c, ctx, Some(a), Some(b)) == -1
    ensures Compare(c, ctx, Some(b), Some(a)) == 1
  {
  }

  /** The stages that run before the size stage pass, and the size stage
      runs before the aspect stage. */
  predicate SizeStageReached(c: Comparer, target: Resolution, a: Resolution, b: Resolution) {
    && Ordinary(target, a, b)
    && !c.preferAspectOverResolution
    && (c.respectOrientation ==> OrientationOf(a) == OrientationOf(b))
  }

  /** Preferring larger sizes: of two candidates on different sides of the
      target, the one at least as large in both dimensions goes first. */
  lemma CompareClosestLarger(c: Comparer, ctx: Context, a: Resolution, b: Resolution)
    requires c.preference == ClosestLarger && SizeStageReached(c, ctx.target, a, b)
    requires AtLeast(a, ctx.target) && !AtLeast(b, ctx.target)
    ensures Compare(c, ctx, Some(a), Some(b)) == -1
    ensures Compare(c, ctx, Some(b), Some(a)) == 1
  {
  }

  /** Preferring smaller sizes: of two candidates on different sides of the
      target, the one at most as large in both dimensions goes first. */
  lemma CompareClosestSmaller(c: Comparer, ctx: Context, a: Resolution, b: Resolution)
    requires c.preference == ClosestSmaller && SizeStageReached(c, ctx.target, a, b)
    requires AtMost(a, ctx.target) && !AtMost(b, ctx.target)
    ensures Compare(c, ctx, Some(a), Some(b)) == -1
    ensures Compare(c, ctx, Some(b), Some(a)) == 1
  {
  }

  /** With orientation ignored, a size and its rotation are measured alike. */
  lemma CandidateVectorRotation(c: Comparer, width: int, height: int)
    requires !c.respectOrientation
    ensures CandidateVector(c, width, height) == CandidateVector(c, height, width)
    ensures AspectRatio(c, width, height) == AspectRatio(c, height, width)
  {
  }

  /** `s` decides the order of (a, b) exactly when `s'` decides (b, a), and
      the other way round. */
  predicate Opposite(s: Stage, s': Stage) {
    && (s.Pass? <==> s'.Pass?)
    && (s.Decided? && s'.Decided? ==> s'.result == -s.result)
  }

  lemma ResolutionsClosestOpposite(c: Comparer, ctx: Context, a: Resolution, b: Resolution)
    requires ctx.epsilon > 0.0
    ensures Opposite(ResolutionsClosest(c, ctx, a, b), ResolutionsClosest(c, ctx, b, a))
  {
  }

  lemma ResolutionsOpposite(c: Comparer, ctx: Context, a: Resolution, b: Resolution)
    requires ctx.epsilon > 0.0
    ensures Opposite(Resolutions(c, ctx, a, b), Resolutions(c, ctx, b, a))
  {
    ResolutionsClosestOpposite(c, ctx, a, b);
  }

  lemma AspectRatiosOpposite(c: Comparer, ctx: Context, a: Resolution, b: Resolution)
    requires ctx.epsilon > 0.0
    ensures Opposite(AspectRatiosCorrected(c, ctx, a, b), AspectRatiosCorrected(c, ctx, b, a))
  {
  }

  lemma FirstStagesOpposite(target: Resolution, a: Resolution, b: Resolution)
    ensures Opposite(NegativeValues(a, b), NegativeValues(b, a))
    ensures Opposite(ZeroValues(a, b), ZeroValues(b, a))
    ensures Opposite(EqualValues(target, a, b), EqualValues(target, b, a))
    ensures Opposite(OrientationValues(target, a, b), OrientationValues(target, b, a))
  {
  }

  lemma SizeStagesOpposite(c: Comparer, ctx: Context, a: Resolution, b: Resolution)
    requires ctx.epsilon > 0.0
    ensures var size := if c.preferAspectOverResolution then AspectRatiosCorrected(c, ctx, a, b).Then(Resolutions(c, ctx, a, b))
                        else Resolutions(c, ctx, a, b).Then(AspectRatiosCorrected(c, ctx, a, b));
            var size' := if c.preferAspectOverResolution then AspectRatiosCorrected(c, ctx, b, a).Then(Resolutions(c, ctx, b, a))
                         else Resolutions(c, ctx, b, a).Then(AspectRatiosCorrected(c, ctx, b, a));
            Opposite(size, size')
  {
    ResolutionsOpposite(c, ctx, a, b);
    AspectRatiosOpposite(c, ctx, a, b);
  }

  /** Running opposite stages after opposite stages gives opposite outcomes. */
  lemma ThenOpposite(x: Stage, y: Stage, x': Stage, y': Stage)
    requires Opposite(x, x') && Opposite(y, y')
    ensures Opposite(x.Then(y), x'.Then(y'))
  {
  }

  lemma CascadeOpposite(c: Comparer, ctx: Context, a: Resolution, b: Resolution)
    requires ctx.epsilon > 0.0
    ensures Opposite(Cascade(c, ctx, a, b, AspectRatiosCorrected(c, ctx, a, b)),
                     Cascade(c, ctx, b, a, AspectRatiosCorrected(c, ctx, b, a)))
  {
    var t := ctx.target;
    var size := if c.preferAspectOverResolution then AspectRatiosCorrected(c, ctx, a, b).Then(Resolutions(c, ctx, a, b))
                else Resolutions(c, ctx, a, b).Then(AspectRatiosCorrected(c, ctx, a, b));
    var size' := if c.preferAspectOverResolution then AspectRatiosCorrected(c, ctx, b, a).Then(Resolutions(c, ctx, b, a))
                 else Resolutions(c, ctx, b, a).Then(AspectRatiosCorrected(c, ctx, b, a));
    FirstStagesOpposite(t, a, b);
    SizeStagesOpposite(c, ctx, a, b);
    var before := if c.respectOrientation then OrientationValues(t, a, b) else Pass;
    var before' := if c.respectOrientation then OrientationValues(t, b, a) else Pass;
    var after := if !c.respectOrientation then OrientationValues(t, a, b) else Pass;
    var after' := if !c.respectOrientation then OrientationValues(t, b, a) else Pass;
    var s1, s1' := NegativeValues(a, b), NegativeValues(b, a);
    ThenOpposite(s1, ZeroValues(a, b), s1', ZeroValues(b, a));
    var s2, s2' := s1.Then(ZeroValues(a, b)), s1'.Then(ZeroValues(b, a));
    ThenOpposite(s2, EqualValues(t, a, b), s2', EqualValues(t, b, a));
    var s3, s3' := s2.Then(EqualValues(t, a, b)), s2'.Then(EqualValues(t, b, a));
    ThenOpposite(s3, before, s3', before');
    var s4, s4' := s3.Then(before), s3'.Then(before');
    ThenOpposite(s4, size, s4', size');
    ThenOpposite(s4.Then(size), after, s4'.Then(size'), after');
  }

  /** The corrected comparer: swapping the candidates negates the result,
      as a sort requires, as long as the tolerance is positive. */
  lemma CompareCorrectedAntisymmetric(c: Comparer, ctx: Context, a: Option<Resolution>, b: Option<Resolution>)
    requires ctx.epsilon > 0.0
    ensures CompareCorrected(c, ctx, a, b) == -CompareCorrected(c, ctx, b, a)
  {
    if a.Some? && b.Some? {
      CascadeOpposite(c, ctx, a.value, b.value);
    }
  }

  /** Both candidates present, both near the target's aspect and not near
      each other's: the only pairs on which the correction changes the
      aspect stage. */
  predicate AspectClash(c: Comparer, ctx: Context, a: Option<Resolution>, b: Option<Resolution>) {
    && a.Some? && b.Some?
    && NearTargetAspect(c, ctx, a.value) && NearTargetAspect(c, ctx, b.value)
    && !NearlyEquals(ctx, AspectRatio(c, a.value.width, a.value.height), AspectRatio(c, b.value.width, b.value.height))
  }

  /** The comparer and the corrected comparer agree on every pair that does
      not clash on aspect. */
  lemma CompareCorrectedAgrees(c: Comparer, ctx: Context, a: Option<Resolution>, b: Option<Resolution>)
    requires !AspectClash(c, ctx, a, b)
    ensures CompareCorrected(c, ctx, a, b) == Compare(c, ctx, a, b)
  {
  }

  /** The comparer as written is antisymmetric on every pair that does not
      clash on aspect, for a positive tolerance. */
  lemma CompareAntisymmetricApart(c: Comparer, ctx: Context, a: Option<Resolution>, b: Option<Resolution>)
    requires ctx.epsilon > 0.0
    requires !AspectClash(c, ctx, a, b)
    ensures Compare(c, ctx, a, b) == -Compare(c, ctx, b, a)
  {
    CompareCorrectedAgrees(c, ctx, a, b);
    CompareCorrectedAgrees(c, ctx, b, a);
    CompareCorrectedAntisymmetric(c, ctx, a, b);
  }

  /** The comparer as written is not antisymmetric: two candidates whose
      aspects are both near the target's, but not near each other's, each
      go before the other. At the default tolerance 0.008, for a 1920x1080
      target, 1700x960 and 1785x1000 both compare as first. */
  lemma CompareNotAntisymmetric()
    ensures var c := Comparer(true, true, Closest);
            var ctx := Context(Resolution(1920, 1080), 0.008, FloatOps((x, y) => 0.0, (x, y) => 0.0));
            && Compare(c, ctx, Some(Resolution(1700, 960)), Some(Resolution(1785, 1000))) == -1
            && Compare(c, ctx, Some(Resolution(1785, 1000)), Some(Resolution(1700, 960))) == -1
  {
  }
}
