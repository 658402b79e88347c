# V4R object recognition bookkeeping: a Dafny model

This project models the index, list and string bookkeeping that surrounds
the geometry in V4R's object recognition code:

- **Local recognition pipeline** (`LocalRecognitionPipeline`).
  - `initialize` builds one unified keypoint store per model from all local feature matchers. For each matcher it records where that matcher's keypoints of each model start in the store.
  - `do_recognize` shifts every matcher's correspondences into the unified indices. When the matcher runs several estimators, it compacts away redundant correspondences in place. It then merges the rest into the per-model list, keeping the closer of two redundant correspondences. For a model seen for the first time, the code as written stores the unshifted list instead (see Findings). The pipeline model uses the corrected step; the code as written is modelled beside it.
  - `correspondenceGrouping` sorts each model's correspondences and clusters them. It estimates one transform per cluster, greedily merges clusters with close transforms, and emits one hypothesis group per transform.
- **Icosphere construction of the depth-map renderer.** `search_midpoint` maintains the edge table with swap-with-last removal. `subdivide` splits every face into four. `createSphere` starts from the icosahedron and subdivides it repeatedly.
- **The recognizer base class** (`recognizer.h`):
  - the parameter defaults;
  - `ObjectHypothesis::operator=`, which copies the correspondence list;
  - the accessors that return all models and transforms or only the verified ones;
  - the setters.
- **The kNN category vote of `GlobalNNPipeline::classify`.** It gathers the neighbours, finds the nearest one's category, counts votes, turns them into shares and ranks the categories by share. As written, every vote goes to the nearest neighbour's category (see Findings). The classifier model uses the corrected vote, one per neighbour for its own category; the code as written is modelled beside it.
- **The annotation-line format on both sides.**
  - The writer in the evaluation application prints the verified and the generated hypotheses.
  - The reader in the occlusion evaluation application parses lines into per-model lists of poses and occlusions.
  - The occlusion evaluation then decides, per ground-truth instance, whether it was recognised.
  - The evaluation application also names its output directory and files and computes the median recognition time.

Geometry stays abstract and is passed in as function parameters:
- the four-part redundancy test on two correspondences;
- the "close transforms" test;
- graph clustering;
- rigid transform estimation;
- the sort keys;
- the translation error;
- number parsing and printing.

`std::map` iteration is modelled by the lexicographic key order of `std::string` (`OrderedMaps.SortedKeys`). `std::sort` is modelled by `Sorting.SortBy`, whose result is proved sorted and a permutation of its input.

Where the code has a mutable object, the model uses a Dafny class with the same fields. This applies to the pipeline, the recognizer, the object hypothesis and the classifier. Where the code loops, the model has a method with a loop, and each method is proved equal to a specification function. Those functions carry the proved properties. For the two steps listed under Findings, the specification functions describe the corrected behaviour. The behaviour as written has its own functions, and lemmas state where the two agree and where they differ.

## Model

Source paths are relative to the repository root.

| member | source | states |
|---|---|---|
| KeypointStore.UnifiedKeys | modules/recognition/src/local_recognition_pipeline.cpp:30-51 | a model is in the unified store iff some matcher holds it |
| KeypointStore.UnifiedSize | modules/recognition/src/local_recognition_pipeline.cpp:37-50 | the unified store holds exactly as many keypoints of a model as all matchers together |
| KeypointStore.RangeStartIsCount | modules/recognition/src/local_recognition_pipeline.cpp:39-45 | matcher i's recorded range start for m is m's keypoint count over matchers 0..i-1, and 0 when no earlier matcher holds m |
| KeypointStore.UnifiedPrefix | modules/recognition/src/local_recognition_pipeline.cpp:40-49 | registering more matchers only appends to a model's keypoints and normals |
| KeypointStore.UnifiedIndexing | modules/recognition/src/local_recognition_pipeline.cpp:37-50 | the keypoint matcher i calls k sits at range start + k in the unified store |
| KeypointStore.UnifiedAligned | modules/recognition/src/local_recognition_pipeline.cpp:40-49 | keypoints and normals are appended together, so aligned matchers give an aligned store |
| KeypointStore.UnifiedNormalIndexing | modules/recognition/src/local_recognition_pipeline.cpp:40-49 | the normal of matcher i's keypoint k sits at range start + k |
| KeypointStore.RegisterKeysWhole | modules/recognition/src/local_recognition_pipeline.cpp:30-51 | visiting a matcher's models one at a time, each once, yields the whole-store registration and range starts |
| LocalRecognition.Resized | modules/recognition/src/local_recognition_pipeline.cpp:24 | resizing the range-start vector keeps the earlier entries and adds empty maps |
| LocalRecognition.LocalRecognitionPipeline.RegisterModels | modules/recognition/src/local_recognition_pipeline.cpp:30-51 | one matcher's models are appended to the store and its range starts recorded; nothing else changes |
| LocalRecognition.LocalRecognitionPipeline.Initialize | modules/recognition/src/local_recognition_pipeline.cpp:13-53 | after `initialize` the store is the unified store of all matchers and the range starts are those recorded per matcher |
| Consolidation.Shifted | modules/recognition/src/local_recognition_pipeline.cpp:220-221 | every model index moves by the range start; the scene index and distance are unchanged |
| LocalRecognition.ShiftInPlace | modules/recognition/src/local_recognition_pipeline.cpp:220-221 | the in-place loop leaves the array equal to the shifted list |
| Consolidation.DedupSubsequence | modules/recognition/src/local_recognition_pipeline.cpp:223-271 | compaction keeps a subsequence of the input, in order, and never grows the list |
| Consolidation.DedupPairwise | modules/recognition/src/local_recognition_pipeline.cpp:241-267 | no kept correspondence is redundant with an earlier kept one |
| Consolidation.DedupCovers | modules/recognition/src/local_recognition_pipeline.cpp:241-267 | every input correspondence is kept or is redundant with some kept one |
| Consolidation.DedupPrefix | modules/recognition/src/local_recognition_pipeline.cpp:241-267 | compacting a prefix of the list gives a prefix of the compacted list |
| Consolidation.DedupCoversEarlier | modules/recognition/src/local_recognition_pipeline.cpp:241-267 | each input is compared only with the kept entries before it: it is kept right after them, or one of them makes it redundant |
| Consolidation.DedupOfNonRedundant | modules/recognition/src/local_recognition_pipeline.cpp:223-271 | a list without redundant pairs passes compaction unchanged |
| Consolidation.DedupIdempotent | modules/recognition/src/local_recognition_pipeline.cpp:223-271 | compacting twice is compacting once |
| LocalRecognition.RedundantWithKept | modules/recognition/src/local_recognition_pipeline.cpp:240-264 | the inner loop reports redundancy iff some kept correspondence makes the new one redundant |
| LocalRecognition.CompactNonRedundant | modules/recognition/src/local_recognition_pipeline.cpp:225-270 | the in-place compaction leaves the deduplicated list in the first `kept` slots and the rest untouched |
| Consolidation.FirstRedundant | modules/recognition/src/local_recognition_pipeline.cpp:290-311 | the result is the first existing correspondence that makes the new one redundant, or none when none does |
| LocalRecognition.FindFirstRedundant | modules/recognition/src/local_recognition_pipeline.cpp:289-311 | the search loop finds exactly that first redundant slot |
| Consolidation.MergeShape | modules/recognition/src/local_recognition_pipeline.cpp:280-316 | existing entries keep their slots; the appended ones are a subsequence of the new ones |
| Consolidation.MergedListLayout | modules/recognition/src/local_recognition_pipeline.cpp:312-318 | the list grows by exactly the number kept, and the kept new ones follow all existing ones in their order |
| Consolidation.MergeNeverWorse | modules/recognition/src/local_recognition_pipeline.cpp:303-307 | a slot's distance never grows, and a slot only ever takes a strictly closer new correspondence |
| Consolidation.MergeStep | modules/recognition/src/local_recognition_pipeline.cpp:283-313 | each new correspondence overwrites the first redundant slot if strictly closer, is never appended when redundant, and is compared against the updated list |
| Consolidation.MergeMonotone | modules/recognition/src/local_recognition_pipeline.cpp:281-314 | over the loop, the appended list only grows at its end and slot distances only decrease |
| Consolidation.MergeOneAccounts | modules/recognition/src/local_recognition_pipeline.cpp:283-313 | one new correspondence is either kept for appending or leaves some existing slot at a distance no larger than its own |
| Consolidation.MergeAccountsForAll | modules/recognition/src/local_recognition_pipeline.cpp:281-318 | each new correspondence is appended or some slot ends at least as close |
| Consolidation.MergeElements | modules/recognition/src/local_recognition_pipeline.cpp:278-318 | every correspondence of the merged list is an existing or a new one |
| LocalRecognition.MergeOneInto | modules/recognition/src/local_recognition_pipeline.cpp:283-313 | one iteration of the merge loop, on arrays, does what one merge step specifies |
| LocalRecognition.MergeInto | modules/recognition/src/local_recognition_pipeline.cpp:280-316 | the merge loop leaves the existing array updated and the kept new correspondences compacted to the front |
| LocalRecognition.ConsolidateModel | modules/recognition/src/local_recognition_pipeline.cpp:213-319 | one model of one matcher is shifted, compacted if the matcher has several estimators, and merged into or stored as the model's list; a first-seen model stores the shifted, compacted list (the corrected step, see Findings) |
| LocalRecognition.ConsolidateOutput | modules/recognition/src/local_recognition_pipeline.cpp:208-320 | one matcher's models, in key order, update the collected lists as the corrected matcher step specifies, and the range-start reads record zeros only for absent models |
| LocalRecognition.LocalRecognitionPipeline.ConsolidateMatcher | modules/recognition/src/local_recognition_pipeline.cpp:196-321 | one matcher's output updates the collected lists by the corrected matcher step, and changes that matcher's range starts only |
| Consolidation.MatcherStepKeysWhole | modules/recognition/src/local_recognition_pipeline.cpp:208-320 | visiting a matcher's models one at a time, each once, is the whole matcher step |
| Consolidation.RecordKeysOffset | modules/recognition/src/local_recognition_pipeline.cpp:221 | the zeros that reading an absent range start records never change any model's offset |
| Consolidation.ConsolidateKeys | modules/recognition/src/local_recognition_pipeline.cpp:273-319 | a model has collected correspondences iff some matcher reported it |
| Consolidation.PreparedReported | modules/recognition/src/local_recognition_pipeline.cpp:213-271 | each shifted and compacted correspondence names, in the unified store, the keypoint its matcher meant, with that matcher's scene index and distance |
| Consolidation.ConsolidateReported | modules/recognition/src/local_recognition_pipeline.cpp:196-321 | with the corrected first-seen step, every collected correspondence names the keypoint its matcher meant |
| LocalRecognition.RecognizedCorrespondencesReported | modules/recognition/src/local_recognition_pipeline.cpp:13-53 | after `initialize` and `do_recognize` with the corrected first-seen step, every collected correspondence indexes the unified store at the keypoint its matcher meant |
| Consolidation.ModelStepAsWrittenAgrees | modules/recognition/src/local_recognition_pipeline.cpp:262-276 | the model step as written (a first-seen model stores the matcher's list `oh`) agrees with the corrected step when the model was seen before, or when the range start is 0 and there is one estimator |
| Consolidation.MatcherStepAsWrittenAgrees | modules/recognition/src/local_recognition_pipeline.cpp:208-320 | the matcher step as written agrees with the corrected one for a matcher with one estimator whose newly seen models start at 0 |
| Consolidation.ConsolidateAsWrittenKeys | modules/recognition/src/local_recognition_pipeline.cpp:196-321 | as written or corrected, the consolidation over all matchers collects lists for the same models |
| Consolidation.SingleMatcherAsWrittenAgrees | modules/recognition/src/local_recognition_pipeline.cpp:196-321 | with one matcher that neither shifts nor compacts, the consolidation as written collects exactly the corrected lists |
| Consolidation.FirstSeenAsWrittenMisindexes | modules/recognition/src/local_recognition_pipeline.cpp:273-275 | as written, a first-seen model keeps its unshifted indices and names another matcher's keypoint; the corrected step names the right one |
| LocalRecognition.LocalRecognitionPipeline.DoRecognize | modules/recognition/src/local_recognition_pipeline.cpp:190-325 | the collected lists are rebuilt from scratch over all matchers in order, by the corrected matcher step; then, if hypotheses are generated, every model is grouped |
| Grouping.GroupModelNeedsThree | modules/recognition/src/local_recognition_pipeline.cpp:75-76 | a model with fewer than 3 correspondences emits no hypothesis |
| Grouping.GroupModelShape | modules/recognition/src/local_recognition_pipeline.cpp:149-182 | each emitted group holds one local hypothesis of the model with the cluster count as confidence and cluster j's correspondences |
| Grouping.GroupModelUnmerged | modules/recognition/src/local_recognition_pipeline.cpp:166-183 | without merging, exactly one hypothesis per cluster, carrying that cluster's transform |
| Grouping.GroupModelMerged | modules/recognition/src/local_recognition_pipeline.cpp:109-161 | with merging, one hypothesis per seed, carrying the transform re-estimated from the seed's merged correspondences |
| Grouping.SeedsShape | modules/recognition/src/local_recognition_pipeline.cpp:109-145 | seeds come in cluster order and there are at most as many as clusters |
| Grouping.SeedsExtend | modules/recognition/src/local_recognition_pipeline.cpp:111-145 | later clusters only add seeds after the earlier ones |
| Grouping.SeedsBefore | modules/recognition/src/local_recognition_pipeline.cpp:111-145 | the seeds before cluster i are those decided by the first i clusters |
| Grouping.SeedCharacterization | modules/recognition/src/local_recognition_pipeline.cpp:115-140 | a cluster is a seed iff no earlier seed's original transform is close to it |
| Grouping.SeedsCover | modules/recognition/src/local_recognition_pipeline.cpp:111-145 | every cluster is a seed or is absorbed by an earlier seed |
| Grouping.SeedsWhenNothingClose | modules/recognition/src/local_recognition_pipeline.cpp:111-145 | without close transforms every cluster is a seed |
| Grouping.AbsorbedContents | modules/recognition/src/local_recognition_pipeline.cpp:124-140 | a seed's merged correspondences are its own followed by exactly those of the close later clusters, taken or not |
| Grouping.TakenClusterJoinsTwoSeeds | modules/recognition/src/local_recognition_pipeline.cpp:126-140 | the inner loop does not skip taken clusters, so one cluster's correspondences can join two seeds |
| Grouping.MergedTransforms | modules/recognition/src/local_recognition_pipeline.cpp:109-145 | one re-estimated transform per seed |
| Grouping.ClusterTransforms | modules/recognition/src/local_recognition_pipeline.cpp:103-107 | one estimated transform per cluster |
| Grouping.SortedListsKeysWhole | modules/recognition/src/local_recognition_pipeline.cpp:64-78 | a grouping pass sorts exactly the lists with at least 3 entries |
| LocalRecognition.EstimateAll | modules/recognition/src/local_recognition_pipeline.cpp:103-107 | the estimation loop yields one transform per cluster |
| LocalRecognition.AbsorbLater | modules/recognition/src/local_recognition_pipeline.cpp:124-140 | the inner loop collects the seed's merged correspondences and marks exactly the close later clusters taken |
| LocalRecognition.TakeSeed | modules/recognition/src/local_recognition_pipeline.cpp:117-143 | the seed is marked taken, absorbs the close later clusters, and yields its re-estimated transform |
| LocalRecognition.MergeSeeds | modules/recognition/src/local_recognition_pipeline.cpp:113-142 | starting from all-false taken flags, the loop keeps exactly one re-estimated transform per seed, in seed order, at the front of the merged array |
| LocalRecognition.MergeClose | modules/recognition/src/local_recognition_pipeline.cpp:109-145 | the greedy merge driven by the taken flags yields one transform per seed, in seed order |
| LocalRecognition.LocalRecognitionPipeline.EmitHypotheses | modules/recognition/src/local_recognition_pipeline.cpp:149-182 | one single-hypothesis group per transform is appended, and nothing else changes |
| LocalRecognition.LocalRecognitionPipeline.GroupOneModel | modules/recognition/src/local_recognition_pipeline.cpp:66-184 | one model's groups are appended, and its list is left sorted when it has at least 3 entries |
| LocalRecognition.LocalRecognitionPipeline.GroupInOrder | modules/recognition/src/local_recognition_pipeline.cpp:66-184 | visiting the models in order appends their groups in that order |
| LocalRecognition.LocalRecognitionPipeline.CorrespondenceGrouping | modules/recognition/src/local_recognition_pipeline.cpp:57-186 | the groups of every model are appended in key order |
| DepthmapRenderer.FirstMatch | modules/rendering/src/depthmapRenderer.cpp:17-29 | the first table entry for the edge, in either orientation, or none |
| DepthmapRenderer.LookupEitherOrientation | modules/rendering/src/depthmapRenderer.cpp:18-19 | the lookup finds a stored edge whichever way round the corners are given |
| DepthmapRenderer.SwapRemove | modules/rendering/src/depthmapRenderer.cpp:23-26 | moving the last edge into the hit slot and dropping the last slot removes exactly the hit entry, as a multiset and position by position |
| DepthmapRenderer.LookupHit | modules/rendering/src/depthmapRenderer.cpp:20-28 | a hit returns the stored midpoint, moves the last entry into its slot, shrinks the table by one and adds no vertex |
| DepthmapRenderer.LookupMiss | modules/rendering/src/depthmapRenderer.cpp:32-34 | a miss appends (start, end, next vertex), returns that vertex and adds one vertex |
| DepthmapRenderer.LookupKeepsFresh | modules/rendering/src/depthmapRenderer.cpp:14-53 | stored midpoints stay distinct and below the vertex count, and the returned vertex is below the new count |
| DepthmapRenderer.SearchMidpoint | modules/rendering/src/depthmapRenderer.cpp:14-53 | the in-place array lookup does what the table lookup specifies |
| DepthmapRenderer.SplitStep | modules/rendering/src/depthmapRenderer.cpp:74-98 | splitting one face adds exactly four faces |
| DepthmapRenderer.SplitFacesLayout | modules/rendering/src/depthmapRenderer.cpp:83-98 | old face k (a,b,c) becomes faces 4k..4k+3 as (a,ab,ca), (ca,ab,bc), (ca,bc,c), (ab,b,bc), with the midpoints of (b,a), (c,b), (a,c) looked up in that order |
| DepthmapRenderer.SplitFacesIndices | modules/rendering/src/depthmapRenderer.cpp:74-98 | if the old faces index vertices below the old count, the new faces index vertices below the new count |
| DepthmapRenderer.SetFace | modules/rendering/src/depthmapRenderer.cpp:83-98 | one face's three corners are written at its slot and nothing else changes |
| DepthmapRenderer.SplitFace | modules/rendering/src/depthmapRenderer.cpp:74-98 | one loop iteration does three lookups and writes four faces as one split step specifies |
| DepthmapRenderer.SplitAllFaces | modules/rendering/src/depthmapRenderer.cpp:74-99 | the loop over the old faces leaves the vertex count and the first 12·F new face entries exactly as splitting the faces one after another specifies |
| DepthmapRenderer.Subdivide | modules/rendering/src/depthmapRenderer.cpp:55-101 | the face count quadruples, the face array is 12 times the old face count long and holds the split faces, and the edge count is set to 2V+3F |
| DepthmapRenderer.SphereShape | modules/rendering/src/depthmapRenderer.cpp:432-450 | after k subdivisions there are 20·4^k faces, at least 12 vertices, and every face index is below the vertex count |
| DepthmapRenderer.IcosahedronFaceArray | modules/rendering/src/depthmapRenderer.cpp:441-445 | the face array is filled from the icosahedron's 20 faces |
| DepthmapRenderer.CreateSphere | modules/rendering/src/depthmapRenderer.cpp:420-462 | the point count is the vertex count after max(0, subdivisions) subdivisions, and 12 when there is none |
| Recognizers.DefaultParameter | modules/recognition/include/v4r/recognition/recognizer.h:102-121 | no ICP iterations, merging of close hypotheses on with 0.02 m and 10 degrees, and the other defaults |
| Recognizers.ObjectHypothesis.Assign | modules/recognition/include/v4r/recognition/recognizer.h:76-82 | assignment copies the correspondences into the target's own list object, and copies the flann indices and the model |
| Recognizers.AssignmentCopiesContents | modules/recognition/include/v4r/recognition/recognizer.h:76-82 | after an assignment, changing the source's list leaves the target's copy unchanged |
| Recognizers.TrueIndices | modules/recognition/include/v4r/recognition/recognizer.h:266-269 | the ascending indices below n whose flag is set, all of them |
| Recognizers.VerifiedOnly | modules/recognition/include/v4r/recognition/recognizer.h:261-264 | nothing is returned when there are fewer flags than entries, and never more than the entries |
| Recognizers.KeptAtTrueIndices | modules/recognition/include/v4r/recognition/recognizer.h:266-269 | the result is exactly the entries at the flagged indices, in ascending order |
| Recognizers.KeptAllOrNone | modules/recognition/include/v4r/recognition/recognizer.h:266-269 | with every flag set the whole list is returned, and with none set nothing is |
| Recognizers.KeptIgnoresTrailingFlags | modules/recognition/include/v4r/recognition/recognizer.h:146-147 | the plane flags after the model flags do not affect the result |
| Recognizers.FilterVerified | modules/recognition/include/v4r/recognition/recognizer.h:259-270 | the push_back loop with its length guard returns the verified entries |
| Recognizers.Recognizer.constructor | modules/recognition/include/v4r/recognition/recognizer.h:164-168 | the given parameters, no segmentation required, and empty lists |
| Recognizers.Recognizer.GetModels | modules/recognition/include/v4r/recognition/recognizer.h:245-249 | every generated hypothesis's model, verified or not: the stored model list |
| Recognizers.Recognizer.GetTransforms | modules/recognition/include/v4r/recognition/recognizer.h:278-282 | every generated hypothesis's transform: the stored transform list |
| Recognizers.Recognizer.RequiresSegmentation | modules/recognition/include/v4r/recognition/recognizer.h:323-326 | the stored segmentation flag |
| Recognizers.Recognizer.GetVerifiedModels | modules/recognition/include/v4r/recognition/recognizer.h:256-271 | the verified models, or nothing when the flags are too short |
| Recognizers.Recognizer.GetVerifiedTransforms | modules/recognition/include/v4r/recognition/recognizer.h:289-304 | the verified transforms, or nothing when the flags are too short |
| Recognizers.Recognizer.SetTrainingDir | modules/recognition/include/v4r/recognition/recognizer.h:310-314 | only the training directory changes |
| Recognizers.Recognizer.SetIndices | modules/recognition/include/v4r/recognition/recognizer.h:328-332 | only the indices change |
| GlobalNNClassifier.NumNeighbours | modules/recognition/include/v4r/recognition/impl/global_nn_classifier.hpp:128 | the smaller of NN_ and the number of collected scores |
| GlobalNNClassifier.VotesCount | modules/recognition/include/v4r/recognition/impl/global_nn_classifier.hpp:133-148 | a category's count is the number of votes cast for it |
| GlobalNNClassifier.Shares | modules/recognition/include/v4r/recognition/impl/global_nn_classifier.hpp:151-163 | each category, in map order, gets its count divided by num_n |
| GlobalNNClassifier.RankingNames | modules/recognition/include/v4r/recognition/impl/global_nn_classifier.hpp:151-165 | the ranking names every category that got a vote, and each once |
| GlobalNNClassifier.RankingEntries | modules/recognition/include/v4r/recognition/impl/global_nn_classifier.hpp:151-165 | every ranked entry is a voted category with its share of the votes, and the entries are ordered by decreasing share |
| GlobalNNClassifier.FirstIsNearest | modules/recognition/include/v4r/recognition/impl/global_nn_classifier.hpp:121-123 | the first-NN category is the category of a neighbour with the least distance |
| GlobalNNClassifier.ClassifyCategories | modules/recognition/include/v4r/recognition/impl/global_nn_classifier.hpp:121-171 | with the corrected vote, the categories are those of the neighbours, each once |
| GlobalNNClassifier.ClassifyConfidences | modules/recognition/include/v4r/recognition/impl/global_nn_classifier.hpp:133-171 | with the corrected vote, each category's confidence is the fraction of the neighbours in that category |
| GlobalNNClassifier.AsWrittenSingleCategory | modules/recognition/include/v4r/recognition/impl/global_nn_classifier.hpp:133-163 | as written, every vote goes to the nearest neighbour's category, so the output is that one category with confidence 1 |
| GlobalNNClassifier.AsWrittenAgreesWhenUniform | modules/recognition/include/v4r/recognition/impl/global_nn_classifier.hpp:121-171 | when all neighbours share one category, classify as written and the corrected vote give the same outcome |
| GlobalNNClassifier.AsWrittenDropsSecondCategory | modules/recognition/include/v4r/recognition/impl/global_nn_classifier.hpp:133-148 | for two neighbours of different categories, the code as written reports one category where the corrected vote reports two |
| GlobalNNClassifier.GatherScores | modules/recognition/include/v4r/recognition/impl/global_nn_classifier.hpp:110-119 | the loop collects (index, distance) of the first NN_ neighbours in search order |
| GlobalNNClassifier.TallyVotes | modules/recognition/include/v4r/recognition/impl/global_nn_classifier.hpp:133-148 | the counting loop yields the corrected vote map: each of the first num_n neighbours votes for its own category |
| GlobalNNClassifier.ScoreCategories | modules/recognition/include/v4r/recognition/impl/global_nn_classifier.hpp:151-163 | the map loop yields each category's share |
| GlobalNNClassifier.RankCategories | modules/recognition/include/v4r/recognition/impl/global_nn_classifier.hpp:151-165 | the map loop and the sort yield the ranking |
| GlobalNNClassifier.Unzip | modules/recognition/include/v4r/recognition/impl/global_nn_classifier.hpp:167-171 | categories and confidences come out index-aligned with the ranking |
| GlobalNNClassifier.ClassifyScores | modules/recognition/include/v4r/recognition/impl/global_nn_classifier.hpp:121-171 | the tail of classify computes the corrected outcome (one vote per neighbour for its own category) from the gathered scores |
| GlobalNNClassifier.GlobalNNPipeline.Classify | modules/recognition/include/v4r/recognition/impl/global_nn_classifier.hpp:84-172 | the first-NN category, categories and confidences are replaced by the corrected outcome of the current search result |
| OcclusionEvaluation.StripOcclusion | apps/ObjectRecognizer/compute_recognition_rate_over_occlusion.cpp:56 | drops the first and the last two characters; an empty token is out of range; 1- and 2-character tokens keep everything after the first character |
| OcclusionEvaluation.StripWrapped | apps/ObjectRecognizer/compute_recognition_rate_over_occlusion.cpp:56 | stripping removes exactly the "(" and "):" the writer puts around the confidence |
| OcclusionEvaluation.ReadNumbers | apps/ObjectRecognizer/compute_recognition_rate_over_occlusion.cpp:59-60 | all tokens are read as numbers, in order, or the read fails |
| OcclusionEvaluation.PoseOf | apps/ObjectRecognizer/compute_recognition_rate_over_occlusion.cpp:59-60 | number i goes to row i/4, column i%4 |
| OcclusionEvaluation.PoseOfEntries | apps/ObjectRecognizer/compute_recognition_rate_over_occlusion.cpp:59-60 | reading a pose's entries back row by row gives the same pose |
| OcclusionEvaluation.PoseFromTokensFields | apps/ObjectRecognizer/compute_recognition_rate_over_occlusion.cpp:59-60 | the pose reads iff tokens 2..17 exist and read as numbers, and then entry (r,c) is token 2+4r+c |
| OcclusionEvaluation.ParseLineFields | apps/ObjectRecognizer/compute_recognition_rate_over_occlusion.cpp:53-60 | a line's model name is its first token and its occlusion is 1 minus the stripped second token |
| OcclusionEvaluation.ReadLine | apps/ObjectRecognizer/compute_recognition_rate_over_occlusion.cpp:53-60 | the token loop parses one line as specified |
| OcclusionEvaluation.AddHypothesis | apps/ObjectRecognizer/compute_recognition_rate_over_occlusion.cpp:62-66 | the hypothesis is appended to its model's list, which is created if absent; other models are unchanged |
| OcclusionEvaluation.GroupAllContents | apps/ObjectRecognizer/compute_recognition_rate_over_occlusion.cpp:49-66 | each name read has a list of exactly its hypotheses in line order, and no other name has one |
| OcclusionEvaluation.ReadSucceeds | apps/ObjectRecognizer/compute_recognition_rate_over_occlusion.cpp:49-66 | reading succeeds iff every line parses |
| OcclusionEvaluation.ReadIsGrouping | apps/ObjectRecognizer/compute_recognition_rate_over_occlusion.cpp:49-66 | a successful read is the grouping by name of the parsed lines, one hypothesis per line |
| OcclusionEvaluation.ReadAllGroups | apps/ObjectRecognizer/compute_recognition_rate_over_occlusion.cpp:42-70 | reading a file succeeds iff each line parses, and groups the parsed lines by name |
| OcclusionEvaluation.ReadFailureStays | apps/ObjectRecognizer/compute_recognition_rate_over_occlusion.cpp:49-66 | once a line fails, later lines do not change the outcome |
| OcclusionEvaluation.ReadHypothesesFromFile | apps/ObjectRecognizer/compute_recognition_rate_over_occlusion.cpp:42-70 | the line loop computes the specified read |
| OcclusionEvaluation.Recognized | apps/ObjectRecognizer/compute_recognition_rate_over_occlusion.cpp:166-186 | recognised iff the name has results and one of them has translation error strictly below the threshold |
| OcclusionEvaluation.IsRecognized | apps/ObjectRecognizer/compute_recognition_rate_over_occlusion.cpp:166-186 | the search loop computes exactly that flag |
| OcclusionEvaluation.RowsFor | apps/ObjectRecognizer/compute_recognition_rate_over_occlusion.cpp:158-190 | one row per ground-truth instance of a model |
| OcclusionEvaluation.RowAt | apps/ObjectRecognizer/compute_recognition_rate_over_occlusion.cpp:158-190 | the row of model p's instance k is its occlusion and recognised flag, at the position after all earlier models' instances |
| OcclusionEvaluation.RowsCount | apps/ObjectRecognizer/compute_recognition_rate_over_occlusion.cpp:158-190 | exactly one row per ground-truth instance |
| OcclusionEvaluation.RowsOfModels | apps/ObjectRecognizer/compute_recognition_rate_over_occlusion.cpp:158-190 | the nested loops produce the specified rows |
| OcclusionEvaluation.EvaluateAnnotation | apps/ObjectRecognizer/compute_recognition_rate_over_occlusion.cpp:158-190 | the rows of one annotation file, models in key order |
| OcclusionEvaluation.RecFileOfAnno | apps/ObjectRecognizer/compute_recognition_rate_over_occlusion.cpp:148-150 | the results file has the annotation's name, with ".anno" replaced by ".generated_hyps" for generated hypotheses |
| RecognizerEvaluation.WriteHypothesis | apps/ObjectRecognizerEval/main.cpp:116-124 | one line: the model id, " (-1.): ", then the 16 pose entries row by row, each followed by a space |
| RecognizerEvaluation.LineTokens | apps/ObjectRecognizerEval/main.cpp:119-123 | the written line splits into the model id, "(-1.):" and the 16 entries |
| RecognizerEvaluation.LineRoundTrip | apps/ObjectRecognizerEval/main.cpp:116-124 | a written line parses back to the same model id, with each entry at its row and column |
| RecognizerEvaluation.LineRoundTripExact | apps/ObjectRecognizer/compute_recognition_rate_over_occlusion.cpp:53-60 | when the number printer and reader are inverse, a written line parses back to exactly the same pose |
| RecognizerEvaluation.FlattenAt | apps/ObjectRecognizerEval/main.cpp:131-141 | hypothesis k of group g is written after all hypotheses of earlier groups |
| RecognizerEvaluation.WriteVerified | apps/ObjectRecognizerEval/main.cpp:116-125 | one line per verified hypothesis, in order |
| RecognizerEvaluation.WriteGenerated | apps/ObjectRecognizerEval/main.cpp:128-143 | one line per generated hypothesis, in group order and then within-group order |
| RecognizerEvaluation.OutputNames | apps/ObjectRecognizerEval/main.cpp:107-108 | ".pcd" becomes ".anno", and the generated name is the one the occlusion evaluation reads |
| Text.ReplaceLastOfSuffix | apps/ObjectRecognizerEval/main.cpp:128-129 | replacing the last occurrence of a suffix replaces the suffix |
| Text.ReplaceLast | apps/ObjectRecognizerEval/main.cpp:107-108 | the last occurrence is replaced, or the string is unchanged when there is none |
| RecognizerEvaluation.DecimalValue | apps/ObjectRecognizerEval/main.cpp:170-172 | the decimal rendering of the counter reads back as the counter |
| RecognizerEvaluation.PathAppend | apps/ObjectRecognizerEval/main.cpp:170-179 | joining a file name to a directory as `bf::path` `/=` does keeps the directory as prefix and the name as suffix, with at most one separator inserted between them |
| RecognizerEvaluation.PathAppendNoDoubleSlash | apps/ObjectRecognizerEval/main.cpp:170-179 | joining a directory and a relative name, neither with a doubled separator, gives no doubled separator |
| RecognizerEvaluation.PathAppendInjective | apps/ObjectRecognizerEval/main.cpp:170-179 | under one directory, different relative names give different paths |
| RecognizerEvaluation.PathAppendAfterSeparator | apps/ObjectRecognizerEval/main.cpp:170-179 | a directory ending in a separator gets no second one |
| RecognizerEvaluation.DefaultDirParamFile | apps/ObjectRecognizerEval/main.cpp:24 | with the default output directory, the first parameter file is "/tmp/object_recognition_results/1_param.txt" |
| RecognizerEvaluation.EmptyDirResultsFile | apps/ObjectRecognizerEval/main.cpp:177-179 | with an empty output directory, the results file name is the relative "2_results.txt" |
| RecognizerEvaluation.EvalDirNamesDistinct | apps/ObjectRecognizerEval/main.cpp:63-69 | different directory indices give different evaluation directory names |
| RecognizerEvaluation.DecimalInjective | apps/ObjectRecognizerEval/main.cpp:170-179 | different counters give different file names |
| RecognizerEvaluation.FindEvalDir | apps/ObjectRecognizerEval/main.cpp:63-69 | the directory index is the least index whose folder does not exist, and the counter ends one past it |
| RecognizerEvaluation.EvalFilesNamedAfterNextIndex | apps/ObjectRecognizerEval/main.cpp:170-179 | the parameter and results files, joined to the output directory as `bf::path` `/=` joins, are named after the counter and differ from the names the directory index would give |
| RecognizerEvaluation.MedianTime | apps/ObjectRecognizerEval/main.cpp:159-161 | the times are sorted in place and the median is the element at index size/2; with no times there is no median |
| RecognizerEvaluation.MedianSplits | apps/ObjectRecognizerEval/main.cpp:159-161 | the median is one of the times, at most size/2 times are below it and at most size-1-size/2 above it |
| RecognizerEvaluation.CountIfPermutation | apps/ObjectRecognizerEval/main.cpp:160 | sorting does not change how many times satisfy a test |
| Sorting.SortBy | apps/ObjectRecognizerEval/main.cpp:160 | the result is sorted by the key and is a permutation of the input |
| OrderedMaps.KeyList | modules/recognition/src/local_recognition_pipeline.cpp:64 | a map's keys in the iteration order of std::map, each once |

## Left out

- Float geometry: norms, dot products, the atan2 angle decomposition, vertex midpoint normalisation and sphere scaling. The redundancy test, the close-transforms test, the translation error and the sort keys are function parameters.
- Float precision: real numbers stand in for `float` and `double`, including the literals of the parameter defaults.
- Graph clustering, rigid transform estimation, the hypothesis verifier and pose refinement. These are given as function parameters, or, for the last two, are only declared in recognizer.h:158-159.
- The sort comparators `gcGraphCorrespSorter` and `sortIndexScoresOp*` are not part of this model. They are taken as key functions.
- Sorting.SortBy: a stable insertion sort stands for the unstable `std::sort`. The order of entries with equal keys (equal distances, equal shares) is therefore fixed in the model and unspecified in the source.
- The `#pragma omp critical` sections: appends are modelled as sequential.
- All OpenGL, GLFW, shader and framebuffer code of the renderer, and the vertex coordinates. Only index and count bookkeeping is modelled.
- DepthmapRenderer.Subdivide: `faces.resize` is modelled as a fresh array holding the old faces' replacement, not as a resize of the same vector.
- DepthmapRenderer.CreateSphere: returns the point count; the point coordinates and their scaling are not modelled.
- FLANN index building and search, descriptor loading and training output. The classifier takes the search result (indices and distances) as input.
- GlobalNNClassifier.GlobalNNPipeline.Classify: requires NN_ > 0, since with no neighbour the source reads the first score of an empty list. It also models the corrected vote, one per neighbour for its own category, not the vote as written (see Findings).
- GlobalNNClassifier.TallyVotes: models the corrected vote; the vote as written is `ClassifyAsWritten` (see Findings).
- GlobalNNClassifier.ClassifyScores: models the corrected vote; the vote as written is `ClassifyAsWritten` (see Findings).
- GlobalNNClassifier.ClassifyCategories: states the categories of the corrected vote; as written there is only the nearest neighbour's category (see Findings).
- GlobalNNClassifier.ClassifyConfidences: states the confidences of the corrected vote; as written the one confidence is 1 (see Findings).
- LocalRecognition.ConsolidateModel: models the corrected first-seen step; the step as written is `ModelStepAsWritten` (see Findings).
- LocalRecognition.ConsolidateOutput: models the corrected first-seen step; the step as written is `MatcherStepAsWritten` (see Findings).
- LocalRecognition.LocalRecognitionPipeline.ConsolidateMatcher: models the corrected first-seen step; the step as written is `MatcherStepAsWritten` (see Findings).
- LocalRecognition.LocalRecognitionPipeline.DoRecognize: collects the lists with the corrected first-seen step; the collection as written is `ConsolidateAsWritten` (see Findings).
- LocalRecognition.RecognizedCorrespondencesReported: holds for the corrected first-seen step only; as written a first-seen model may name another matcher's keypoint (see Findings).
- RecognizerEvaluation.MedianTime: with no time recorded the source indexes an empty vector, which is undefined; the model returns no median.
- File, stream, directory and XML I/O. File contents are sequences of lines, and folder existence is a set of existing indices.
- Number parsing (`std::stof` for the occlusion token, `std::istringstream >>` for the pose entries) and number printing (`std::ostream <<`) are the function parameters `readNum` and `show`.
- OcclusionEvaluation.ReadNumbers: one parameter `readNum` stands for both parsers, and any unreadable number makes the read fail. In the source, a bad occlusion token makes `std::stof` throw `std::invalid_argument`, which is not caught and ends the program. A bad pose entry only sets the stream's failbit, and reading goes on.
- OcclusionEvaluation.ParseLineFields: the same applies; both kinds of bad input are one read failure.
- LocalRecognition.LocalRecognitionPipeline.Initialize: requires at least one matcher. With none, the source aborts at the glog `CHECK(!local_feature_matchers_.empty())` (local_recognition_pipeline.cpp:15).
- LocalRecognition.LocalRecognitionPipeline.DoRecognize: requires every reported model to be in the unified store, and one output per matcher. For an absent model, `model_keypoints_[model_id]` default-inserts a null pointer, and dereferencing it is undefined behaviour (local_recognition_pipeline.cpp:215-216).
- LocalRecognition.LocalRecognitionPipeline.CorrespondenceGrouping: requires every model with correspondences to be in the unified store. For an absent model, the same null pointer is dereferenced, which is undefined behaviour (local_recognition_pipeline.cpp:72-73).
- OcclusionEvaluation.ParseLine: a line with fewer than 16 pose numbers is a read failure. The source leaves the remaining pose entries indeterminate.
- OcclusionEvaluation.StripOcclusion: `std::out_of_range` on an empty token is a read failure value, not an exception.
- The precision, recall and F-score arithmetic, and the recognition-rate output of the evaluation application.
- Integer widths: indices and counters are unbounded integers. The one place where `size_t` wrap-around changes behaviour (`substr(1, len - 3)` for tokens of 1 or 2 characters) is written out.
- `setInputCloud`, `setSceneNormals`, `setHVAlgorithm`, `visualize` and the virtual getters of recognizer.h pass or show point clouds, and point clouds are not part of this model.
- The matchers' own `recognize` and `getCorrespondences`: each matcher's output is an input of `DoRecognize`.

## Findings

| source | as written | input that shows it | evidently intended | confidence | as-written member | corrected member |
|---|---|---|---|---|---|---|
| modules/recognition/src/local_recognition_pipeline.cpp:273-275 | a model seen for the first time is stored with the matcher's original correspondence list `oh`, without the range-start shift and without the compaction just computed in `new_corrs` | two matchers each holding one keypoint of model "cube"; only the second reports a correspondence to its keypoint 0; the stored correspondence then names unified keypoint 0, which belongs to the first matcher | store the shifted, compacted `new_corrs` for a first-seen model | not executed | Consolidation.FirstSeenAsWrittenMisindexes | Consolidation.ConsolidateReported |
| modules/recognition/include/v4r/recognition/impl/global_nn_classifier.hpp:133-148 | each of the `num_n` votes is cast for the category of `fm`, the nearest neighbour, so the output is always one category with confidence 1 | two neighbours, of categories "mug" and "bowl"; the result is only "mug" with confidence 1 | each neighbour votes for its own category, giving "mug" and "bowl" with confidence 1/2 each | not executed | GlobalNNClassifier.AsWrittenDropsSecondCategory | GlobalNNClassifier.ClassifyConfidences |
