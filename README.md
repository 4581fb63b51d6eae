# posting-app core in Dafny

The posting app records a walk as a GPS trail and draws it on a Google map. It can also overlay KML layers on the map. This project models two services of the app and proves what they promise:

- **PathSegmentationService** (`path_segmentation.dfy`, module `PathSegmentation`). `createPathSegments` cuts a trail into the polylines the map draws. Consecutive fixes whose distance is at most the threshold are joined. A larger step breaks the line. A run is drawn only when it has at least two points.
  - The model follows the service's loop as a method over the input array. The method is proved equal to a specification, `PathSegments`. That specification takes the slices of the trail named by `SegmentSpans`, which are the maximal runs of within-threshold steps with two or more points.
  - The distance function and the threshold are both parameters (`Config`). `ServiceConfig` fixes the threshold at 1000 m, as the service does.
- **KmlLayerService** (`kml_layers.dfy`, module `KmlLayers`). This service keeps the ordered list of KML layers shown on the map.
  - The list supports four updates: add (after URL validation), remove by id, show/hide by id, and attaching a map-layer object by id.
  - The service is a class. It holds the current list, plus the stored entry, which is the list without the map-layer objects.
  - The URL rules work on an already-parsed URL, `Url(raw, parsed)`. `parsed` is `None` when the browser's URL parser rejects the string.
  - The id of a new layer is a parameter.
- `wrappers.dfy` holds the shared `Option` type.

## Model

| member | source | states |
|---|---|---|
| PathSegmentation.CreatePathSegments | posting-app/src/app/service/path-segmentation.service.ts:105-139 | Returns exactly `PathSegments` of the trail: the left-to-right pass extends the run on a step `<=` the threshold and closes it otherwise, emits a run only when it has more than one point, and reads the input without changing it |
| PathSegmentation.ServiceConfig | posting-app/src/app/service/path-segmentation.service.ts:48 | The service's threshold: two fixes stay connected exactly when their distance is at most 1000 m |
| PathSegmentation.SegmentSpans | posting-app/src/app/service/path-segmentation.service.ts:109-136 | The runs the pass emits: each has at least 2 points and lies within the trail; every step inside is within the threshold; each starts at the trail start or after a step above the threshold; each ends at the trail end or before one; they come in trail order without overlap |
| PathSegmentation.PathSegments | posting-app/src/app/service/path-segmentation.service.ts:103-136 | One segment per span; every segment has two or more points and every consecutive pair in it is within the threshold |
| PathSegmentation.SegmentsAreSlices | posting-app/src/app/service/path-segmentation.service.ts:110-136 | Each segment is the contiguous slice of the trail named by its span |
| PathSegmentation.RunEnd | posting-app/src/app/service/path-segmentation.service.ts:113-129 | The run starting at a point extends exactly to the first step above the threshold, or to the end of the trail |
| PathSegmentation.DrawablePoints | posting-app/src/app/service/path-segmentation.service.ts:110-136 | The non-isolated points of a trail, in order; there are fewer of them than points exactly when some point has no neighbour within the threshold |
| PathSegmentation.CloseRun | posting-app/src/app/service/path-segmentation.service.ts:120-129 | Closing the run at a step above the threshold emits it exactly when it has more than one point, and the segments still to come are those from the far point on |
| PathSegmentation.CloseLastRun | posting-app/src/app/service/path-segmentation.service.ts:132-136 | The final conditional emission completes the result |
| PathSegmentation.ExtendRun | posting-app/src/app/service/path-segmentation.service.ts:116-119 | A step within the threshold appends the point to the current run, which stays linked |
| PathSegmentation.ShortTrailHasNoSegments | posting-app/src/app/service/path-segmentation.service.ts:107 | A trail of zero or one point yields no segment |
| PathSegmentation.AllNearIsOneSegment | posting-app/src/app/service/path-segmentation.service.spec.ts:64-75 | With at least two points and every step within the threshold, the result is the one segment equal to the whole trail |
| PathSegmentation.NearFarNearSplitsInTwo | posting-app/src/app/service/path-segmentation.service.spec.ts:118-132 | Steps near, far, near give exactly the segments `[p0, p1]` and `[p2, p3]` |
| PathSegmentation.StepWithinThresholdStaysInSegment | posting-app/src/app/service/path-segmentation.service.ts:116-119 | The threshold is inclusive: a step of at most the threshold lies inside one emitted segment |
| PathSegmentation.StepAboveThresholdSplits | posting-app/src/app/service/path-segmentation.service.ts:120-129 | No segment spans a step above the threshold, and the far point is not dropped: when the next step is within the threshold, a segment starts at it |
| PathSegmentation.SegmentsCoverDrawablePoints | posting-app/src/app/service/path-segmentation.service.ts:110-136 | A point belongs to some segment exactly when it is not isolated |
| PathSegmentation.SegmentsKeepDrawablePoints | posting-app/src/app/service/path-segmentation.service.ts:110-136 | The segments concatenated are the trail with its isolated points removed; hence at most as many points as the trail, and fewer exactly when some point is isolated |
| PathSegmentation.SpansFromMaximal | posting-app/src/app/service/path-segmentation.service.ts:113-130 | The runs found from any start are linked, start and end at breaks, and are ordered |
| PathSegmentation.SlicesAt | posting-app/src/app/service/path-segmentation.service.ts:125 | Segment k holds exactly the points of span k |
| KmlLayers.IsValidKmlUrl | posting-app/src/app/service/kml-layer.service.ts:134-162 | Accepted exactly when the URL parses, its protocol is `http:` or `https:`, and the raw text contains `google.com/maps/d/` or the path ends in `.kml` or `.kmz` ignoring case |
| KmlLayers.LowerEndsWithKml | posting-app/src/app/service/kml-layer.service.ts:149-156 | Testing the lower-cased path for a `.kml`/`.kmz` ending is testing its last four characters, ignoring case |
| KmlLayers.ExtractNameFromUrl | posting-app/src/app/service/kml-layer.service.ts:169-184 | An unparsable URL gets the default name `KMLレイヤー`; a My Maps URL gets `Google My Maps`; otherwise an empty last path component falls back to `KMLレイヤー`, and a file name without a KML extension is the name unchanged |
| KmlLayers.DefaultNameHasNoExtension | posting-app/src/app/service/kml-layer.service.ts:179-180 | The default name does not end in `.kml`/`.kmz`, so the extension removal keeps it whole |
| KmlLayers.Contains | posting-app/src/app/service/kml-layer.service.ts:144 | The `includes` test of the raw URL: it can hold only when the marker is no longer than the text |
| KmlLayers.LastComponent | posting-app/src/app/service/kml-layer.service.ts:179 | The last `/`-component of the path is its longest suffix without a `/` |
| KmlLayers.StripKmlExtension | posting-app/src/app/service/kml-layer.service.ts:180 | Removes a trailing `.kml`/`.kmz` in any case, and only that |
| KmlLayers.ValidKmlNameDropsExtension | posting-app/src/app/service/kml-layer.service.ts:149-156 | For an accepted URL that is not a My Maps URL, the derived name followed by the extension that validation required is the file name |
| KmlLayers.KmlFileUrlNamedAfterFile | posting-app/src/app/service/kml-layer.service.ts:169-184 | A web URL with path `dir/file.kml` (or `.kmz`) that is not a My Maps URL is accepted and named `file` |
| KmlLayers.MyMapsUrlAccepted | posting-app/src/app/service/kml-layer.service.ts:144-146 | Any parsed web URL containing `google.com/maps/d/` is accepted and named `Google My Maps` |
| KmlLayers.DerivedNameHasNoSlash | posting-app/src/app/service/kml-layer.service.ts:179-180 | A derived name never contains a `/` |
| KmlLayers.ContainsIsSomeOccurrence | posting-app/src/app/service/kml-layer.service.ts:144 | The substring test holds exactly when the marker occurs at some index |
| KmlLayers.Removed | posting-app/src/app/service/kml-layer.service.ts:81 | The `filter` on ids never lengthens the list |
| KmlLayers.RemovedMembers | posting-app/src/app/service/kml-layer.service.ts:81 | The records kept are exactly those whose id differs |
| KmlLayers.RemovedAppend | posting-app/src/app/service/kml-layer.service.ts:81 | Removal keeps the original order: it distributes over concatenation |
| KmlLayers.RemovedAbsentId | posting-app/src/app/service/kml-layer.service.ts:81 | Removing an id nobody carries leaves the list unchanged |
| KmlLayers.RemoveUndoesAdd | posting-app/src/app/service/kml-layer.service.ts:59-62 | Removing a layer just added under a fresh id restores the previous list |
| KmlLayers.Toggled | posting-app/src/app/service/kml-layer.service.ts:93-102 | Same length; a record carrying the id gets the new `visible`, every other record is unchanged |
| KmlLayers.ToggledChangesOnlyVisibility | posting-app/src/app/service/kml-layer.service.ts:93-102 | The ids, names, urls and map layers are unchanged, and every matching record has the new visibility |
| KmlLayers.ToggledTwice | posting-app/src/app/service/kml-layer.service.ts:91-106 | Toggling twice is toggling once, with the later value |
| KmlLayers.ToggledNoOp | posting-app/src/app/service/kml-layer.service.ts:91-106 | Toggling to the value the matching records already have changes nothing |
| KmlLayers.WithMapLayer | posting-app/src/app/service/kml-layer.service.ts:115-117 | Same length; only the `layer` field of the matching records changes |
| KmlLayers.Save | posting-app/src/app/service/kml-layer.service.ts:219-226 | Record i of the stored list is record i of the list, with `id`, `name`, `url` and `visible` only |
| KmlLayers.Load | posting-app/src/app/service/kml-layer.service.ts:201-206 | Record i of the loaded list is stored record i with no map layer |
| KmlLayers.LoadSave | posting-app/src/app/service/kml-layer.service.ts:197-231 | Loading what was saved gives the same records in the same order, with the map layer cleared |
| KmlLayers.SaveLoad | posting-app/src/app/service/kml-layer.service.ts:197-231 | Saving what was loaded gives back the stored records |
| KmlLayers.SaveIgnoresMapLayer | posting-app/src/app/service/kml-layer.service.ts:113-119 | Attaching a map layer does not change what is stored |
| KmlLayers.AddFreshKeepsIdsUnique | posting-app/src/app/service/kml-layer.service.ts:49-60 | Appending under a fresh id keeps ids unique |
| KmlLayers.RemovedKeepsIdsUnique | posting-app/src/app/service/kml-layer.service.ts:81 | Removal keeps ids unique |
| KmlLayers.ToggledKeepsIdsUnique | posting-app/src/app/service/kml-layer.service.ts:93-102 | Toggling keeps ids unique |
| KmlLayers.WithMapLayerKeepsIdsUnique | posting-app/src/app/service/kml-layer.service.ts:115-117 | Attaching a map layer keeps ids unique |
| KmlLayers.KmlLayerService.constructor | posting-app/src/app/service/kml-layer.service.ts:34-36 | The list is loaded from the stored entry when there is one, and is then its projection; otherwise it is empty |
| KmlLayers.KmlLayerService.AddLayer | posting-app/src/app/service/kml-layer.service.ts:44-66 | An invalid URL returns nothing and changes nothing; otherwise exactly one visible record with the raw URL is appended at the end, earlier records untouched, and the list is stored; its name is the supplied name when that is present and non-empty, and the name derived from the URL otherwise |
| KmlLayers.KmlLayerService.RemoveLayer | posting-app/src/app/service/kml-layer.service.ts:72-84 | The list becomes the list without the records carrying the id, and is stored |
| KmlLayers.KmlLayerService.ToggleLayerVisibility | posting-app/src/app/service/kml-layer.service.ts:91-106 | The list becomes the toggled list, and is stored |
| KmlLayers.KmlLayerService.SetGoogleMapsLayer | posting-app/src/app/service/kml-layer.service.ts:113-119 | The matching records get the map layer; the stored entry is not rewritten and still matches the list |
| KmlLayers.KmlLayerService.GetLayers | posting-app/src/app/service/kml-layer.service.ts:125-127 | Returns the current list |

## Left out

- The haversine distance (`calculateDistance`, posting-app/src/app/service/path-segmentation.service.ts:61-85) is floating-point trigonometry. It is an arbitrary function in `Config`, so the distance claims in the test comments ("about 63 m", "about 1.1 km") are outside the model.
- The threshold is a parameter. The service uses 1000 m. The comments of posting-app/src/app/service/path-segmentation.service.spec.ts:108-124 speak of 100 m. The copy of the tests under posting-app/src/app/map/ uses 1000 m. Every property holds for any threshold.
- Coordinates are unbounded reals. NaN and the rest of IEEE arithmetic are not modelled.
- The map component (posting-app/src/app/map/map.component.ts) is not part of this model. That covers geolocation, fetch, the length-keyed segment caches and the KML wiring. It also covers the step that drops the first stored point after a reload (lines 356-359), which the code itself calls a legacy step of unknown purpose.
- The wake-lock service, its type declarations and the `prompt`/`alert` loop of app.ts are browser glue, so they are not modelled.
- `generateId` draws on the clock and on randomness. The id is a parameter of `AddLayer`, and id uniqueness is proved only for fresh ids.
- localStorage and JSON are modelled only as the projection. The stored entry is an already-decoded `Option<seq<StoredLayer>>`. A failed read, an unparsable entry and a failed write are not modelled: the service only logs them.
- The `BehaviorSubject` becomes the `layers` field. Observers of `layers$` are not modelled.
- The Google Maps side effects are not modelled: `setMap(null)` on the first matching layer in `removeLayer`, and `setMap` in `toggleLayerVisibility`. A map layer is an opaque handle `MapLayer`.
- The URL parser (`new URL`) is foreign code. A URL is given with its parse result: protocol and pathname, or `None`.
- KmlLayers.Lower folds ASCII letters only. The parser percent-encodes non-ASCII characters in a pathname, so `toLowerCase` only ever meets ASCII there. The `/i` regex without the `u` flag matches `kml`/`kmz` only against ASCII letters.
