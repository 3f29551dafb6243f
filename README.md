# Ouroboros core, modelled in Dafny

Ouroboros looks for cosmic microwave background (CMB) anomalies that line up with the solar system. Its checks are the parity statistic, the "Axis of Evil" alignment of the quadrupole and octopole, quasar pair alignment and the cold spot. It tests each statistic against Monte-Carlo nulls: rotated maps, shuffled catalogs or fresh noise.

This project models the exact logic the Python code wraps around its numerical libraries:

- coefficient layout and degree filtering;
- the parity buckets and ratio;
- the weighted covariance tensor;
- headless axis comparisons;
- pair enumeration and the mean absolute-cosine score;
- the spin and scramble shuffles;
- the reflection fix and the null generator;
- the masked arg-min;
- the strip variance statistic;
- strict-count p-values and the three-way verdicts;
- the scale-invariant spectrum and its rescaling;
- the galactic mask ladder.

Library results enter as parameters: transforms, pixel rotation, the eigen-solver, random draws and coordinate conversions. NaN results (the mean or variance of an empty array) are `None`, and every comparison with `None` is false, as it is with NaN in numpy.

Modules, one per file:

- `Arith`, `Options`, `Vectors`: shared algebra. Vectors are cosine-space 3-vectors, and 3x3 matrices are stored by columns.
- `Alm`: healpy's m-major coefficient layout.
- `Parity`, `Harmonics`, `Quasar`, `Geo`: the engines.
- `Shuffling`, `Nulling`: null catalogs and null maps.
- `Estimator`: counts, p-values, verdicts, population variance, failed-run fallback.
- `EclipticStrip`: the strip statistic shared by the variance and jackknife scripts.
- `VariancePipeline`, `Jackknife`, `QuasarPipeline`, `SpectrumCheck`, `MaskLadder`: the driver scripts.

## Model

| member | source | states |
|---|---|---|
| Alm.Index | src/ouroboros/engines/harmonics.py:20-25 | the flat index of (l, m) lies inside the block of order m and below the set size |
| Alm.IndexClosedForm | src/ouroboros/engines/harmonics.py:20-25 | the index equals healpy's getidx formula m(2 lmax+1-m)/2 + l, and a set has (lmax+1)(lmax+2)/2 entries |
| Alm.LocateIndex | src/ouroboros/engines/parity.py:23 | reading back the degree and order stored at index (l, m) gives (l, m) |
| Alm.IndexLocate | src/ouroboros/engines/parity.py:23 | every slot is the index of its own degree and order, so the layout is a bijection |
| Alm.IndexInjective | src/ouroboros/engines/harmonics.py:25-26 | distinct (l, m) pairs occupy distinct slots |
| Parity.StartDegree | src/ouroboros/engines/parity.py:20 | the first degree is max(lmin, 2): at least 2, at least lmin, and one of the two |
| Parity.DegreePower | src/ouroboros/engines/parity.py:25-27 | the power of one degree, abs(a_l0)^2 + 2 sum over m >= 1 of abs(a_lm)^2, is non-negative |
| Parity.WeightedPower | src/ouroboros/engines/parity.py:30-32 | l(l+1)/(2 pi) times the degree power is non-negative, zero for a powerless degree, and positive for a powered degree l >= 1 |
| Parity.GetParityModes | src/ouroboros/engines/parity.py:10-34 | the loop leaves P+ as the weighted power of the even degrees of the band and P- as that of the odd degrees |
| Parity.PointParity | src/ouroboros/engines/parity.py:49-52 | zero when P+ + P- is zero; otherwise r (P+ + P-) = P+ - P-; in [-1, 1] for non-negative buckets; +1 or -1 when only one bucket holds power |
| Parity.ParityStatistic | src/ouroboros/engines/parity.py:36-52 | the statistic lies in [-1, 1], and an empty band (max(lmin, 2) > lmax) gives exactly 0 |
| Parity.CalculatePointParity | src/ouroboros/engines/parity.py:36-52 | the method returns the statistic of its band, which lies in [-1, 1] |
| Parity.ScanParityDirections | src/ouroboros/engines/parity.py:54-69 | the result array is freshly allocated; the indices are 0..npix-1, and results[i] is the statistic of the map rotated towards pixel i, for every i |
| Parity.BandPowerDependsOnDegrees | src/ouroboros/engines/parity.py:22-32 | a bucket depends only on the coefficients of the degrees in its band |
| Parity.LowDegreesIgnored | src/ouroboros/engines/parity.py:20-22 | changing only the l = 0 and l = 1 coefficients leaves the statistic unchanged, whatever lmin is |
| Parity.DegreePowerPositive | src/ouroboros/engines/parity.py:25-27 | one coefficient of non-zero power gives its degree positive power |
| Parity.BandPowerSingle | src/ouroboros/engines/parity.py:29-32 | when only degree l0 has power, the bucket of l0's parity holds exactly its weighted power |
| Parity.SingleDegreeParity | src/ouroboros/engines/parity.py:29-52 | power confined to one degree l0 >= max(lmin, 2) gives +1 for even l0 and -1 for odd l0 |
| Parity.PureModeParity | tests/test_parity.py:24-47 | a unit m = 0 mode alone scores +1 at an even degree and -1 at an odd degree |
| Parity.DipoleContamination | tests/test_parity.py:65-79 | adding any multiple of a dipole to a pure quadrupole still scores +1 |
| Parity.MixtureRatio | tests/test_parity.py:49-63 | weighted powers 6/(2 pi) and 12/(2 pi) give a ratio of exactly -1/3 |
| Parity.QuadrupoleOctupoleParity | tests/test_parity.py:49-63 | unit quadrupole plus unit octupole scores exactly -1/3, strictly inside (-0.8, 0.8) |
| Harmonics.Filtered | src/ouroboros/engines/harmonics.py:18-26 | the filtered set has the input's length |
| Harmonics.FilterDegree | src/ouroboros/engines/harmonics.py:17-26 | the zero-filled array, after the indexed copy, equals the filtered set |
| Harmonics.FilteredKeepsDegree | src/ouroboros/engines/harmonics.py:25-26 | entries (l, m) for m = 0..l are copied unchanged |
| Harmonics.FilteredIdempotent | src/ouroboros/engines/harmonics.py:18-26 | filtering twice is filtering once |
| Harmonics.FilteredEqualIff | src/ouroboros/engines/harmonics.py:18-26 | two sets filter alike exactly when they agree on degree l |
| Harmonics.Weights | src/ouroboros/engines/harmonics.py:35 | every pixel weight (a squared map value) is >= 0, one per pixel |
| Harmonics.CovarianceSymmetric | src/ouroboros/engines/harmonics.py:37-40 | C = sum w r r^T is symmetric |
| Harmonics.QuadFormOuter | src/ouroboros/engines/harmonics.py:40 | x^T (w r r^T) x = w (r . x)^2 |
| Harmonics.CovariancePositiveSemidefinite | src/ouroboros/engines/harmonics.py:35-40 | with non-negative weights x^T C x >= 0 for every x |
| Harmonics.MultipoleTensorSymmetricPsd | src/ouroboros/engines/harmonics.py:29-43 | the tensor handed to the eigen-solver is symmetric and positive semi-definite |
| Harmonics.PrincipalAxisDependsOnDegree | src/ouroboros/engines/harmonics.py:10-55 | the axis of degree l depends only on the degree-l coefficients |
| Harmonics.GetPrincipalAxis | src/ouroboros/engines/harmonics.py:10-55 | the method returns eigenvector column 0 of the tensor of the filtered, synthesised degree |
| Harmonics.AnalyzeAxisOfEvil | src/ouroboros/engines/harmonics.py:57-92 | the report holds the degree-2 and degree-3 axes of a degree-10 expansion and their headless cosines |
| Harmonics.EquinoxCosine | src/ouroboros/engines/harmonics.py:82-83 | the equinox cosine is the absolute x-component of the l = 2 axis |
| Harmonics.ReportHeadless | src/ouroboros/engines/harmonics.py:70-83 | flipping either axis, or swapping the two, changes no cosine |
| Harmonics.ReportInRange | src/ouroboros/engines/harmonics.py:70-83 | with unit axes and a unit pole every cosine is in [0, 1], inside arccos's domain |
| Vectors.AbsDotHeadless | src/ouroboros/engines/harmonics.py:70 | abs(a . b) is symmetric and unchanged by negating either vector |
| Vectors.UnitDotBound | src/ouroboros/engines/harmonics.py:70-71 | for unit vectors the dot product and its absolute value are at most 1 |
| Quasar.PairsCount | src/ouroboros/engines/quasar.py:47 | there are n(n-1)/2 pairs before filtering |
| Quasar.PairsMember | src/ouroboros/engines/quasar.py:47-48 | (i, j) is a pair exactly when i < j < n |
| Quasar.PairsOrdered | src/ouroboros/engines/quasar.py:47-48 | pairs come in strictly increasing row-major order |
| Quasar.PairDifferences | src/ouroboros/engines/quasar.py:43-48 | one raw difference position_i - position_j per pair |
| Quasar.Kept | src/ouroboros/engines/quasar.py:51-53 | no more vectors than given; each kept vector is an input with positive length |
| Quasar.KeptMember | src/ouroboros/engines/quasar.py:51-53 | a vector survives exactly when it is an input with positive length |
| Quasar.KeptAppend | src/ouroboros/engines/quasar.py:53-54 | the filter keeps order: filtering a concatenation concatenates the filtered parts |
| Quasar.GetSeparationVectors | src/ouroboros/engines/quasar.py:10-56 | ValueError exactly when there are more than 2000 objects, carrying the count; otherwise at most n(n-1)/2 vectors |
| Quasar.DifferenceKeptIffDistinct | src/ouroboros/engines/quasar.py:43-53 | with a norm that is zero only at the origin, a pair's difference survives iff its two positions differ |
| Quasar.DistinctCatalogKeepsAllPairs | src/ouroboros/engines/quasar.py:47-54 | distinct positions give exactly n(n-1)/2 output vectors |
| Quasar.SeparationsHaveUnitLength | src/ouroboros/engines/quasar.py:51-54 | each output vector has length 1 under a homogeneous norm, which numpy's Euclidean norm is (Quasar.EuclideanHomogeneous) |
| Quasar.EuclideanHomogeneous | src/ouroboros/engines/quasar.py:51-54 | the Euclidean length, the non-negative root of v . v, scales with every positive factor |
| Quasar.SeparationOnAxis | tests/test_quasar.py:16-30 | objects on +x at distances 100 and 200 give the single vector [-1, 0, 0] under the Euclidean norm |
| Quasar.CorrelateWithAxis | src/ouroboros/engines/quasar.py:58-77 | NaN exactly for no vectors; otherwise a mean of absolute cosines, >= 0 |
| Quasar.CorrelateSignInvariant | src/ouroboros/engines/quasar.py:71-77 | negating any input vectors leaves the score unchanged |
| Quasar.CorrelateInRange | src/ouroboros/engines/quasar.py:67-77 | with unit vectors and a unit axis the score is in [0, 1] |
| Quasar.CorrelatePerfect | tests/test_quasar.py:32-46 | vectors all equal to +axis or -axis, with a unit axis, score exactly 1 |
| Quasar.PerfectAlignmentExample | tests/test_quasar.py:37-46 | [0, 0, 1] and [0, 0, -1] against [0, 0, 1] score 1 |
| Shuffling.PyMod360 | src/ouroboros/validation/shuffling.py:29 | Python's x % 360 lies in [0, 360) and differs from x by a whole number of turns |
| Shuffling.PyMod360Periodic | src/ouroboros/validation/shuffling.py:29 | adding whole turns does not change the remainder |
| Shuffling.Spun | src/ouroboros/validation/shuffling.py:28-29 | one shared offset; every spun right ascension is in [0, 360); lengths kept |
| Shuffling.SpinPreservesDifferences | src/ouroboros/validation/shuffling.py:26-29 | spinning preserves every pairwise right-ascension difference modulo 360 |
| Shuffling.SpinZeroOffset | src/ouroboros/validation/shuffling.py:28-29 | a zero offset leaves right ascensions in [0, 360) unchanged |
| Shuffling.ShuffleInPlace | src/ouroboros/validation/shuffling.py:35 | the in-place Fisher-Yates loop leaves the array holding the shuffle of its old contents |
| Shuffling.ShuffledMultiset | src/ouroboros/validation/shuffling.py:34-35 | the shuffle is a permutation |
| Shuffling.GatherShuffledRange | src/ouroboros/validation/shuffling.py:34-36 | indexing by the shuffled arange equals shuffling the values themselves |
| Shuffling.ScramblePreservesPairs | src/ouroboros/validation/shuffling.py:34-36 | one permutation for both arrays keeps the multiset of (ra, dec) pairs |
| Shuffling.ShuffleCatalogVectors | src/ouroboros/validation/shuffling.py:8-38 | 'spin' spins ra and returns dec unchanged; 'scramble' permutes both by one permutation; any other method returns the inputs; lengths kept |
| Nulling.DetNegateColumn0 | src/ouroboros/validation/nulling.py:34 | negating column 0 negates the determinant |
| Nulling.OrthogonalNegateColumn0 | src/ouroboros/validation/nulling.py:34 | negating a column keeps an orthogonal matrix orthogonal |
| Nulling.FixReflection | src/ouroboros/validation/nulling.py:32-35 | det >= 0 and equals the draw's abs(det); a draw with det >= 0 is returned as drawn; otherwise column 0 is negated and columns 1 and 2 kept; orthogonality kept |
| Nulling.FixReflectionIdempotent | src/ouroboros/validation/nulling.py:33-34 | fixing a fixed matrix changes nothing |
| Nulling.Nulls | src/ouroboros/validation/nulling.py:44-59 | exactly n_sims pairs with indices 0..n_sims-1 in order |
| Nulling.NullGenerator.constructor | src/ouroboros/validation/nulling.py:16-23 | stores the map and the seeded generator with no draws taken |
| Nulling.NullGenerator.GetRandomRotation | src/ouroboros/validation/nulling.py:25-35 | takes exactly the next draw and returns its reflection fix |
| Nulling.NullGenerator.GenerateNulls | src/ouroboros/validation/nulling.py:37-59 | takes n_sims draws in order; pair i is the stored original rotated by draw i |
| Geo.FindColdSpotIndex | src/ouroboros/engines/geo.py:35-46 | a fresh search copy with +inf above latitude -20 and the smoothed values elsewhere (the smoothed map is not modified); the index is numpy's argmin of that copy |
| Geo.FirstMinUnique | src/ouroboros/engines/geo.py:46 | argmin has exactly one answer |
| Geo.ColdestPixelFound | tests/test_geo.py:19-30 | a searchable pixel colder than every other searchable pixel is the one found |
| Geo.AllExcludedPicksZero | src/ouroboros/engines/geo.py:43-46 | with every pixel excluded, argmin returns pixel 0 |
| Geo.Clip | src/ouroboros/engines/geo.py:80 | the clipped value is in [-1, 1], equals x inside, and sticks to the nearer bound outside |
| Geo.CheckNodalAlignment | src/ouroboros/engines/geo.py:57-87 | all three clipped cosines lie in [-1, 1] |
| Geo.SouthIsAntipodal | src/ouroboros/engines/geo.py:72-81 | the south-pole cosine is the negated north-pole cosine |
| Geo.EquinoxDistance | src/ouroboros/engines/geo.py:76-80 | the equinox cosine is the clipped x-component of the spot |
| Geo.SpotAtPole | tests/test_geo.py:53-59 | a spot at the unit north pole has cosine 1 with it (0 degrees) and -1 with the south pole (180 degrees) |
| Estimator.CountBelow | scripts/run_variance_pipeline.py:136 | at most the number of nulls; zero against NaN |
| Estimator.CountBelowMonotone | scripts/run_variance_pipeline.py:136 | the count never decreases as the observed value grows |
| Estimator.CountAboveAntitone | scripts/run_jackknife.py:91 | the count never increases as the observed value grows |
| Estimator.CountSplit | scripts/run_jackknife.py:91 | nulls below, equal to and above a value add up to all nulls |
| Estimator.PValue | scripts/run_variance_pipeline.py:137 | a count out of n is in [0, 1] |
| Estimator.Seeds | scripts/run_variance_pipeline.py:127 | n seeds, the i-th being first + i |
| Estimator.LowerTailP | scripts/run_variance_pipeline.py:136-137 | the share of nulls strictly below is in [0, 1], and 0 against NaN |
| Estimator.UpperTailP | scripts/run_jackknife.py:91-92 | the share of nulls strictly above is in [0, 1], and 0 against NaN |
| Estimator.LowerTailPMonotone | scripts/run_variance_pipeline.py:136-137 | p never decreases as the real value grows |
| Estimator.UpperTailPAntitone | scripts/run_quasar_pipeline.py:104-105 | p never increases as the real value grows |
| Estimator.ThreeWay | scripts/run_variance_pipeline.py:143-150 | signal iff p < 0.05, inverse iff p > 0.95, consistent iff 0.05 <= p <= 0.95 |
| Estimator.Variance | scripts/run_variance_pipeline.py:96 | the mean squared deviation of a non-empty array is >= 0 |
| Estimator.PopulationVariance | scripts/run_variance_pipeline.py:120 | NaN exactly for an empty array, otherwise >= 0 |
| Estimator.GuardedVariance | scripts/run_variance_pipeline.py:93-96 | 0.0 for no survivors, otherwise the population variance |
| Estimator.VarianceShift | scripts/run_variance_pipeline.py:96 | adding a constant to every value leaves the variance unchanged |
| Estimator.VarianceConstant | scripts/run_variance_pipeline.py:96 | a constant array has variance 0 |
| Estimator.WorkerAngle | scripts/run_spectrum_check.py:57-61 | a raised analysis gives 90.0; otherwise the analysed angle |
| Estimator.FractionBelow | scripts/run_spectrum_check.py:78-80 | NaN exactly for no runs; otherwise a share in [0, 1] |
| Estimator.FailedRunsNotCounted | scripts/run_mask_ladder.py:55-59 | runs whose analysis raised never count as below 10 degrees |
| Estimator.AllFailedScoresZero | scripts/run_spectrum_check.py:79-80 | when every run fell back to 90 degrees, the share below 10 degrees is exactly 0 |
| EclipticStrip.StripIndicesSpec | scripts/run_variance_pipeline.py:45-59 | the strip holds exactly the pixels with abs(ecliptic latitude) < 20, in ascending order |
| EclipticStrip.StripLatitudes | scripts/run_jackknife.py:66-71 | one galactic latitude per strip pixel, entry k being that of pixel strip[k] |
| EclipticStrip.SelectMember | scripts/run_jackknife.py:34 | a value survives boolean selection exactly when some kept entry holds it |
| EclipticStrip.TwoFilters | scripts/run_variance_pipeline.py:86-91 | the galactic cut then the sentinel filter equals one selection by both tests |
| EclipticStrip.NullMap | scripts/run_variance_pipeline.py:66-67 | the first null of a fresh generator: the original rotated by the fixed first draw, with the original's pixel count |
| EclipticStrip.StripStatistic | scripts/run_jackknife.py:23-42 | the worker statistic is >= 0 |
| EclipticStrip.StripStatisticKeeps | scripts/run_jackknife.py:29-42 | a strip entry counts exactly when abs(b) > 40 and its value > -1e20 |
| EclipticStrip.NoHighLatitudeGivesZero | scripts/run_variance_pipeline.py:86-94 | with no strip pixel beyond the galactic cut the statistic is 0.0 |
| VariancePipeline.NullVariances | scripts/run_variance_pipeline.py:126-130 | one non-negative null per seed |
| VariancePipeline.RealVariance | scripts/run_variance_pipeline.py:117-120 | the real statistic is NaN or >= 0 |
| VariancePipeline.RealKeepsGalacticPlane | scripts/run_variance_pipeline.py:117-120 | with no strip pixel masked, the real statistic is the variance of the whole strip, with no galactic cut |
| VariancePipeline.MaskedStripReportsSignal | scripts/run_variance_pipeline.py:119-150 | a fully masked strip makes the real variance NaN, so p = 0 and the verdict is signal |
| VariancePipeline.VarianceTest | scripts/run_variance_pipeline.py:98-150 | p is in [0, 1] and the verdict is the three-way rule applied to p |
| Jackknife.JackknifeWorker | scripts/run_jackknife.py:23-42 | the worker statistic is >= 0 |
| Jackknife.JackknifeNulls | scripts/run_jackknife.py:81-87 | one non-negative worker value per seed 2025..3024 |
| Jackknife.JackknifeTest | scripts/run_jackknife.py:44-104 | p is in [0, 1] and the verdict is the three-way rule applied to p |
| Jackknife.JackknifeNullsMatchVariance | scripts/run_jackknife.py:81-87 | the jackknife null pool equals the variance test's null pool, entry for entry: same seeds, rotations, strip, galactic cut and sentinel filter |
| QuasarPipeline.ToCatalog | scripts/run_quasar_pipeline.py:70-78 | object k sits at the conversion of (ra_k, dec_k, z_k), with the redshift as the distance |
| QuasarPipeline.CatalogScore | scripts/run_quasar_pipeline.py:39-42 | raises exactly for catalogs of more than 2000 objects |
| QuasarPipeline.NullScore | scripts/run_quasar_pipeline.py:23-44 | spin, then pair vectors, then the score; raises exactly when the catalog is too large |
| QuasarPipeline.QuasarTest | scripts/run_quasar_pipeline.py:70-118 | no result exactly when the catalog has more than 2000 objects; otherwise p is in [0, 1] and the verdict is the three-way rule |
| QuasarPipeline.MockCatalogRaises | scripts/run_quasar_pipeline.py:59-79 | the 5000-object mock catalog raises before any null runs |
| QuasarPipeline.ZeroSpinIsReal | scripts/run_quasar_pipeline.py:36-42 | a zero offset reproduces the real score |
| QuasarPipeline.ScoreInRange | scripts/run_quasar_pipeline.py:78-79 | with the Euclidean norm and a unit axis every defined score is in [0, 1] |
| SpectrumCheck.ScaleInvariant | scripts/run_spectrum_check.py:36-40 | lmax + 1 entries, and entry 0 is 0 |
| SpectrumCheck.ScaleInvariantFlat | scripts/run_spectrum_check.py:31-40 | l(l+1) C_l = 1 for every l >= 1 |
| SpectrumCheck.ScaleInvariantDecreasing | scripts/run_spectrum_check.py:40 | entries strictly decrease from l = 1 on |
| SpectrumCheck.Normalised | scripts/run_spectrum_check.py:96-97 | the rescaled spectrum keeps its length and matches the real spectrum at l = 10 |
| SpectrumCheck.NormalisedKeepsShape | scripts/run_spectrum_check.py:96-97 | every ratio between two entries is unchanged |
| SpectrumCheck.Renormalise | scripts/run_spectrum_check.py:96-97 | the in-place scaling leaves the array equal to the rescaled spectrum |
| SpectrumCheck.TrackAngles | scripts/run_spectrum_check.py:49-73 | run k reports the analysed angle for seed 50000 + k, or 90 where the analysis raised |
| SpectrumCheck.RunTrack | scripts/run_spectrum_check.py:66-82 | NaN exactly for no runs, otherwise a share in [0, 1] |
| SpectrumCheck.AllRaisedTrackIsZero | scripts/run_spectrum_check.py:57-61 | when every analysis raises, every run reports 90 degrees and the track probability is exactly 0 |
| SpectrumCheck.RunTrackCountsAnalysedRuns | scripts/run_spectrum_check.py:57-80 | the track probability counts only analysed angles below 10 |
| SpectrumCheck.Compare | scripts/run_spectrum_check.py:118-127 | independent iff abs(diff) < 0.005; dependent iff not independent and real > flat; inverse otherwise, including NaN |
| SpectrumCheck.AllRaisedIsIndependent | scripts/run_spectrum_check.py:108-119 | when every analysis raises, both tracks score 0 and the verdict is independent |
| SpectrumCheck.IndependentWithinFourRuns | scripts/run_spectrum_check.py:80-118 | with 1000 runs per track, "independent" means the counts differ by at most 4 |
| SpectrumCheck.RunSpectrumCheck | scripts/run_spectrum_check.py:84-127 | both tracks are defined; the flat track uses the rescaled spectrum; the verdict compares the two; when every analysis raises the verdict is independent |
| MaskLadder.MaskOf | scripts/run_mask_ladder.py:27-33 | one entry per pixel; entry k is 0 iff abs(b_k) < cut; every entry is 0 or 1 |
| MaskLadder.GenerateGalacticMask | scripts/run_mask_ladder.py:22-33 | the returned fresh mask equals the mask of the cut |
| MaskLadder.CutZeroKeepsAll | scripts/run_mask_ladder.py:24-25 | a zero cut gives all ones, so the shortcut agrees with the general rule |
| MaskLadder.MaskMonotone | scripts/run_mask_ladder.py:32 | a wider cut gives a pointwise smaller-or-equal mask |
| MaskLadder.SkyFractionProperties | scripts/run_mask_ladder.py:67 | f_sky is in [0, 1], is 1 at cut 0, and never grows as the cut widens |
| MaskLadder.MaskedPixels | scripts/run_mask_ladder.py:52 | the masked map is zero on cut pixels and equals the input elsewhere |
| MaskLadder.LadderSeedsDistinct | scripts/run_mask_ladder.py:73-104 | with fewer than 10000 runs per step, no two (cut, run) pairs share a seed |
| MaskLadder.StepProbability | scripts/run_mask_ladder.py:82-84 | the share of runs below 10 degrees is in [0, 1], NaN only for no runs |
| MaskLadder.AllRaisedStepIsZero | scripts/run_mask_ladder.py:55-59 | when every analysis raises, the step probability is exactly 0 at every cut |
| MaskLadder.RunLadderStep | scripts/run_mask_ladder.py:64-86 | returns the sky fraction of the cut's mask and the step probability |
| MaskLadder.RunLadder | scripts/run_mask_ladder.py:104-110 | one (cut, f_sky, probability) row per cut 0, 10, 20, 30, 40, in ladder order |

## Left out

- Library numerics are parameters or are not modelled. They are taken as given functions:
  - `map2alm`, `alm2map`, `anafast`, `synfast`, `remove_dipole`, `smoothing`;
  - pixel rotation and `pix2vec`/`pix2ang`/`ang2vec`;
  - `eigh`, `ortho_group`;
  - the astropy frame conversions.
  Their floating-point error and the tolerance tests about them (power conservation within 5%, correlation below 0.99 in tests/test_nulling.py) are not modelled.
- Angles: arccos and degree conversion are not modelled. Every angle is stated as the cosine it comes from, and the spherical-to-Cartesian conversion of quasar positions is a parameter.
- Randomness: the k-th rotation drawn after seeding, the spin offset and the Fisher-Yates swap partners are parameters. The shuffle's generator is unseeded, and the rng created in the quasar worker is never used, so each null's offset is an independent parameter. Haar uniformity is not modelled.
- Multiprocessing pools, thread variables, printing and file I/O (catalog and map loading) are not modelled.
- Floating point: reals are exact. Rounding and overflow are not modelled.
- Nulling.NullGenerator.GenerateNulls: the lazy generator is modelled as the eager list of what it yields, in order.
- Nulling.NullGenerator.GetRandomRotation: `R[:, 0] *= -1` is modelled as a value update of the drawn matrix.
- Nulling.NullGenerator.constructor: `seed=None` (an entropy-seeded generator) is not distinguished from a given seed.
- Harmonics.AnalyzeAxisOfEvil: `config.get_ecliptic_vector` (harmonics.py:76) does not exist in config.py, which defines only `get_solar_vector`. As written, every call raises AttributeError. The model takes the ecliptic pole as a parameter and states the report that the code evidently intends. The consequences of the code as written are proved separately:
  - `worker_spectrum` and `worker_pure_noise` return 90.0 for every seed.
  - Every track probability is 0 (SpectrumCheck.AllRaisedTrackIsZero), and the spectrum verdict is always independent (SpectrumCheck.AllRaisedIsIndependent, and the last ensures of SpectrumCheck.RunSpectrumCheck).
  - Every ladder step probability is 0 (MaskLadder.AllRaisedStepIsZero).
- QuasarPipeline: `quasar.load_quasar_catalog` (run_quasar_pipeline.py:57) is not defined in quasar.py, so a given catalog path raises AttributeError. The reachable path is the 5000-object mock, which raises ValueError in `get_separation_vectors` before any null runs (QuasarPipeline.MockCatalogRaises). The model scores any catalog it is given.
- Quasar: `get_quadrupole_axis` returns a placeholder solar vector and is not part of this model.
- VariancePipeline: `get_ecliptic_variance` is an empty stub and is not part of this model.
- Jackknife.JackknifeTest: the real value comes from seed 0, which still draws a random rotation.
- Geo: `find_cold_spot`'s conversion of the found pixel to ICRS coordinates is not modelled. The model stops at the index.
- Default arguments are not modelled as defaults. Every modelled operation takes the parameter explicitly, so each default is one instance of the model:
  - `lmax=config.L_MAX` and `lmin=config.L_MIN` of the parity functions;
  - `nside_scan=8` of `scan_parity_directions`;
  - `method='spin'` of `shuffle_catalog_vectors`;
  - the `n_sims` defaults of `generate_nulls` and `run_track`.
- SpectrumCheck.RunSpectrumCheck: the printed ratio real_cls[2] / flat_cls[2] is not modelled.
- SpectrumCheck.RunTrack and MaskLadder.StepProbability: the alignment angle of each run comes from a parameter, not from the axis model.
- Driver scripts outside the modelled set are not part of this model: parity, tomography, geo, harmonics null, axis validity, global null, axis directions, separation forensics, plots, paper, column inspection and mask debugging.
