/** The request-handling logic of the emotion service that does not touch the network:
    turning the detector's JSON reply into faces, and unwrapping the uploaded image bytes. */
module EmotionService {
  import opened Results
  import opened Json
  import opened Image
  import Base64

  // ---------------------------------------------------------------------------
  // Detection reply -> faces
  // ---------------------------------------------------------------------------

  /** `key` holds a JSON number in `obj`. */
  predicate NumberAt(obj: JObject, key: string) {
    key in obj && obj[key].JNum?
  }

  /** The face object has a `faceRectangle` object with numeric `left`, `top`, `width`, `height`. */
  predicate HasRectangle(face: JObject) {
    && "faceRectangle" in face && face["faceRectangle"].JObj?
    && var box := face["faceRectangle"].fields;
    NumberAt(box, "left") && NumberAt(box, "top") && NumberAt(box, "width") && NumberAt(box, "height")
  }

  /** The face object has a `scores` object all of whose values are numbers. */
  predicate HasScores(face: JObject) {
    && "scores" in face && face["scores"].JObj?
    && forall emotion :: emotion in face["scores"].fields ==> face["scores"].fields[emotion].JNum?
  }

  /** A face object the parser accepts: every getter it calls on it succeeds. */
  predicate WellFormed(face: JObject) {
    HasRectangle(face) && HasScores(face)
  }

  /** The labels of a score list. */
  function Labels(scores: seq<(string, real)>): set<string> {
    set p | p in scores :: p.0
  }

  /** `scores` lists every member of the JSON object `obj` exactly once, each label
      paired with its number, in some order. */
  ghost predicate ScoresOf(scores: seq<(string, real)>, obj: JObject) {
    && Labels(scores) == obj.Keys
    && |scores| == |obj.Keys|
    && (forall i, j :: 0 <= i < j < |scores| ==> scores[i].0 != scores[j].0)
    && (forall i :: 0 <= i < |scores| ==> scores[i].0 in obj && obj[scores[i].0] == JNum(scores[i].1))
  }

  /** `face` is the Face built from the well-formed face object `obj`. */
  ghost predicate Describes(face: Face, obj: JObject) {
    && WellFormed(obj)
    && var box := obj["faceRectangle"].fields;
    && face.rect == Rect(IntValue(box["left"].n), IntValue(box["top"].n),
                         IntValue(box["width"].n), IntValue(box["height"].n))
    && ScoresOf(face.scores, obj["scores"].fields)
  }

  /** The first of the four coordinates, in the order the source reads them, that `box` lacks. */
  function FirstBadCoordinate(box: JObject): string {
    if !NumberAt(box, "left") then "left"
    else if !NumberAt(box, "top") then "top"
    else if !NumberAt(box, "width") then "width"
    else "height"
  }

  /** `e` is the exception that parsing the malformed face object `obj` ends with: the
      getters run in source order, so the first missing or mistyped member is reported
      (among the scores, whichever non-number `keys()` reaches first). */
  ghost predicate FailsWith(obj: JObject, e: JsonError) {
    && !WellFormed(obj)
    && if !("faceRectangle" in obj && obj["faceRectangle"].JObj?) then
         e.key == "faceRectangle" && !e.NotANumber? && Reports(obj, e)
       else if !HasRectangle(obj) then
         var box := obj["faceRectangle"].fields;
         e.key == FirstBadCoordinate(box) && !e.NotAJSONObject? && Reports(box, e)
       else if !("scores" in obj && obj["scores"].JObj?) then
         e.key == "scores" && !e.NotANumber? && Reports(obj, e)
       else
         e.NotANumber? && Reports(obj["scores"].fields, e)
  }

  /** The bounding box `parseFaces` reads from `faceRectangle`, as `Rect(left, top, width, height)`, with no
      validation or clamping of the four numbers. */
  function ParseRect(face: JObject): (r: Result<Rect, JsonError>)
    ensures r.Ok? <==> HasRectangle(face)
    ensures r.Ok? ==> var box := face["faceRectangle"].fields;
      r.value == Rect(IntValue(box["left"].n), IntValue(box["top"].n),
                      IntValue(box["width"].n), IntValue(box["height"].n))
    ensures r.Err? ==> FailsWith(face, r.error)
  {
    var box :- GetJSONObject(face, "faceRectangle");
    var x :- GetInt(box, "left");
    var y :- GetInt(box, "top");
    var w :- GetInt(box, "width");
    var h :- GetInt(box, "height");
    Ok(Rect(x, y, w, h))
  }

  /** After visiting every key of `obj` except those in `rest`, `scores` holds one pair per
      visited key, each label paired with its number. */
  ghost predicate ScoredSoFar(scores: seq<(string, real)>, rest: set<string>, obj: JObject) {
    && rest <= obj.Keys
    && Labels(scores) == obj.Keys - rest
    && |scores| + |rest| == |obj.Keys|
    && (forall i, j :: 0 <= i < j < |scores| ==> scores[i].0 != scores[j].0)
    && (forall i :: 0 <= i < |scores| ==> scores[i].0 in obj && obj[scores[i].0] == JNum(scores[i].1))
    && (forall emotion :: emotion in obj.Keys - rest ==> obj[emotion].JNum?)
  }

  /** The `scores` loop of `parseFaces`: one (label, score) pair per member of the `scores` object, visiting
      the members in the unspecified order of `JSONObject.keys()`. */
  method ReadScores(jsonScores: JObject) returns (r: Result<seq<(string, real)>, JsonError>)
    ensures r.Ok? <==> forall emotion :: emotion in jsonScores ==> jsonScores[emotion].JNum?
    ensures r.Ok? ==> ScoresOf(r.value, jsonScores)
    ensures r.Err? ==> r.error.NotANumber? && Reports(jsonScores, r.error)
  {
    var scores: seq<(string, real)> := [];
    var rest := jsonScores.Keys;
    while rest != {}
      invariant ScoredSoFar(scores, rest, jsonScores)
      decreases rest
    {
      var emo :| emo in rest;
      var score := GetDouble(jsonScores, emo);
      if score.Err? {
        return Err(score.error);
      }
      ScoredStep(scores, rest, jsonScores, emo, score.value);
      scores := scores + [(emo, score.value)];
      rest := rest - {emo};
    }
    return Ok(scores);
  }

  /** Visiting one more key, whose value is a number, keeps `ScoredSoFar`. */
  lemma ScoredStep(scores: seq<(string, real)>, rest: set<string>, obj: JObject, emo: string, v: real)
    requires ScoredSoFar(scores, rest, obj)
    requires emo in rest && obj[emo] == JNum(v)
    ensures ScoredSoFar(scores + [(emo, v)], rest - {emo}, obj)
  {
    var next := scores + [(emo, v)];
    NewLabelIsFresh(scores, emo);
    LabelsAppend(scores, (emo, v));
    assert |rest - {emo}| == |rest| - 1;
    assert obj.Keys - (rest - {emo}) == (obj.Keys - rest) + {emo};
    forall i, j | 0 <= i < j < |next|
      ensures next[i].0 != next[j].0
    {
      if j < |scores| {
        assert next[i] == scores[i] && next[j] == scores[j];
      } else {
        assert next[i] == scores[i] && next[j].0 == emo;
      }
    }
    forall i | 0 <= i < |next|
      ensures next[i].0 in obj && obj[next[i].0] == JNum(next[i].1)
    {
      if i < |scores| {
        assert next[i] == scores[i];
      }
    }
  }

  /** A label not yet among the labels differs from every listed one. */
  lemma NewLabelIsFresh(scores: seq<(string, real)>, emo: string)
    requires emo !in Labels(scores)
    ensures forall i :: 0 <= i < |scores| ==> scores[i].0 != emo
  {
    forall i | 0 <= i < |scores|
      ensures scores[i].0 != emo
    {
      assert scores[i] in scores;
    }
  }

  lemma LabelsAppend(scores: seq<(string, real)>, p: (string, real))
    ensures Labels(scores + [p]) == Labels(scores) + {p.0}
  {
    assert forall q :: q in scores + [p] <==> q in scores || q == p;
  }

  /** The object elements of a JSON array, in array order; every other element is dropped. */
  function ObjectElements(items: seq<JValue>): (objs: seq<JObject>)
    ensures |objs| <= |items|
  {
    if items == [] then []
    else
      var last := items[|items| - 1];
      ObjectElements(items[..|items| - 1]) + (if last.JObj? then [last.fields] else [])
  }

  /** `parseFaces`: the faces of a detection reply. A reply that is not an array has no
      faces; array elements that are not objects are skipped; the first object element
      that lacks a required member aborts the whole call, with no partial list. */
  method ParseFaces(json: JValue) returns (r: Result<seq<Face>, JsonError>)
    ensures !json.JArr? ==> r == Ok([])
    ensures json.JArr? ==>
      (r.Ok? <==> forall k :: 0 <= k < |json.items| && json.items[k].JObj? ==> WellFormed(json.items[k].fields))
    ensures json.JArr? && r.Ok? ==>
      var objs := ObjectElements(json.items);
      |r.value| == |objs| && forall i :: 0 <= i < |objs| ==> Describes(r.value[i], objs[i])
    ensures json.JArr? && r.Err? ==>
      exists k :: 0 <= k < |json.items| && json.items[k].JObj?
        && FailsWith(json.items[k].fields, r.error)
        && forall j :: 0 <= j < k && json.items[j].JObj? ==> WellFormed(json.items[j].fields)
  {
    if !json.JArr? {
      return Ok([]);
    }
    var items := json.items;
    var faces: seq<Face> := [];
    for k := 0 to |items|
      invariant forall j :: 0 <= j < k && items[j].JObj? ==> WellFormed(items[j].fields)
      invariant |faces| == |ObjectElements(items[..k])|
      invariant forall i :: 0 <= i < |faces| ==> Describes(faces[i], ObjectElements(items[..k])[i])
    {
      assert items[..k + 1][..k] == items[..k];
      if !items[k].JObj? {
        continue;
      }
      var face := items[k].fields;
      var rect := ParseRect(face);
      if rect.Err? {
        return Err(rect.error);
      }
      var jsonScores := GetJSONObject(face, "scores");
      if jsonScores.Err? {
        return Err(jsonScores.error);
      }
      var scores := ReadScores(jsonScores.value);
      if scores.Err? {
        return Err(scores.error);
      }
      faces := faces + [Face(scores.value, rect.value)];
    }
    assert items[..|items|] == items;
    return Ok(faces);
  }

  // ---------------------------------------------------------------------------
  // Properties of the element filter
  // ---------------------------------------------------------------------------

  /** Filtering distributes over concatenation. */
  lemma {:induction false} ObjectElementsAppend(a: seq<JValue>, b: seq<JValue>)
    ensures ObjectElements(a + b) == ObjectElements(a) + ObjectElements(b)
  {
    if b != [] {
      var b' := b[..|b| - 1];
      assert (a + b)[..|a + b| - 1] == a + b';
      ObjectElementsAppend(a, b');
    } else {
      assert a + b == a;
    }
  }

  /** A non-object element contributes nothing, wherever it stands in the array. */
  lemma NonObjectIgnored(a: seq<JValue>, v: JValue, b: seq<JValue>)
    requires !v.JObj?
    ensures ObjectElements(a + [v] + b) == ObjectElements(a + b)
  {
    ObjectElementsAppend(a + [v], b);
    ObjectElementsAppend(a, b);
    assert (a + [v])[..|a + [v]| - 1] == a;
  }

  /** Exactly the object elements survive, each once and in array order: their positions
      in the array are strictly increasing and cover every object element. */
  lemma {:induction false} ObjectPositions(items: seq<JValue>) returns (pos: seq<nat>)
    ensures |pos| == |ObjectElements(items)|
    ensures forall i :: 0 <= i < |pos| ==> pos[i] < |items| && items[pos[i]] == JObj(ObjectElements(items)[i])
    ensures forall i, j :: 0 <= i < j < |pos| ==> pos[i] < pos[j]
    ensures forall k :: 0 <= k < |items| && items[k].JObj? ==> k in pos
  {
    if items == [] {
      return [];
    }
    var n := |items| - 1;
    var init := items[..n];
    pos := ObjectPositions(init);
    if items[n].JObj? {
      pos := pos + [n];
    }
  }

  /** No element is dropped exactly when every element is an object. */
  lemma {:induction false} AllObjectsKept(items: seq<JValue>)
    ensures |ObjectElements(items)| == |items| <==> forall k :: 0 <= k < |items| ==> items[k].JObj?
  {
    if items != [] {
      var n := |items| - 1;
      AllObjectsKept(items[..n]);
      assert forall k :: 0 <= k < n ==> items[..n][k] == items[k];
    }
  }

  // ---------------------------------------------------------------------------
  // Uploaded body -> image bytes
  // ---------------------------------------------------------------------------

  /** The content-type suffix that marks a Base64-encoded body. */
  const Base64Suffix: string := ";base64"

  /** Kotlin's case-sensitive `String.endsWith`. */
  predicate EndsWith(s: string, suffix: string) {
    |suffix| <= |s| && s[|s| - |suffix|..] == suffix
  }

  /** `readImageData`, after the body has been read: a body whose content type ends with
      `;base64` is Base64-decoded (`None` where the decoder throws); any other body is
      the image itself. */
  function ReadImageData(contentType: string, body: seq<Base64.byte>): (r: Option<seq<Base64.byte>>)
    ensures !EndsWith(contentType, Base64Suffix) ==> r == Some(body)
    ensures EndsWith(contentType, Base64Suffix) ==> r == Base64.Decode(body)
  {
    if EndsWith(contentType, Base64Suffix) then Base64.Decode(body) else Some(body)
  }

  /** `endsWith` holds exactly of the strings that are something followed by the suffix. */
  lemma EndsWithConcat(s: string, suffix: string)
    ensures EndsWith(s, suffix) <==> exists prefix :: s == prefix + suffix
  {
    if EndsWith(s, suffix) {
      var prefix := s[..|s| - |suffix|];
      assert s == prefix + suffix;
    }
  }

  /** A client that Base64-encodes the image and marks the content type gets its exact
      bytes back, whatever the mime type in front of the marker. */
  lemma ReadImageDataRoundTrip(mimeType: string, image: seq<Base64.byte>)
    ensures ReadImageData(mimeType + Base64Suffix, Base64.Encode(image)) == Some(image)
  {
    var s := mimeType + Base64Suffix;
    assert s[|s| - |Base64Suffix|..] == Base64Suffix;
    Base64.DecodeEncode(image);
  }

  /** The marker is matched case-sensitively: an upper-case `;BASE64` body passes through undecoded. */
  lemma UpperCaseMarkerPassesThrough(mimeType: string, body: seq<Base64.byte>)
    ensures ReadImageData(mimeType + ";BASE64", body) == Some(body)
  {
    var s := mimeType + ";BASE64";
    assert s[|s| - 1] == '4';
    assert s[|s| - 6] == 'B';
    assert s[|s| - 7..][1] == 'B';
  }
}
