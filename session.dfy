/**
  The per-user session state (`all_meals`, `conversation`,
  `generated_images`) and the two things that change it: a chat turn and
  the reset button.
*/
module Sessions {
  import opened Common
  import opened Extraction
  import opened Imaging
  import opened Streaming

  /** One entry of the conversation log: a role and its text. */
  datatype Message = Message(role: string, content: string)

  /** The image service as the turn sees it: what the request numbered `call`
      (counting from 0 within the turn) with the given prompt came to. */
  type ImageService = (nat, string) -> Delivery

  /** The value `generate_and_save_image` returns for each meal of a turn:
      one request per occurrence, duplicates included, the request numbered
      `k` carrying the prompt of meal `k`. */
  function Results(meals: seq<string>, service: ImageService): (images: seq<Option<string>>)
    ensures |images| == |meals|
    ensures forall k :: 0 <= k < |meals| ==> images[k] == GenerateImage(service(k, ImagePrompt(meals[k])))
  {
    seq(|meals|, k requires 0 <= k < |meals| => GenerateImage(service(k, ImagePrompt(meals[k]))))
  }

  /** The image index after the loop has stored, meal by meal, every truthy
      result. */
  function Record(index: map<string, string>, meals: seq<string>, images: seq<Option<string>>): (r: map<string, string>)
    requires |meals| == |images|
    ensures forall x :: x in r ==> x in index || x in meals
    decreases |meals|
  {
    if meals == [] then index
    else
      var n := |meals| - 1;
      var before := Record(index, meals[..n], images[..n]);
      if IsTruthy(images[n]) then before[meals[n] := images[n].value] else before
  }

  /** A name none of whose occurrences produced a truthy image keeps its
      entry, or its absence, from before the turn. */
  lemma {:induction false} RecordKeepsOthers(index: map<string, string>, meals: seq<string>, images: seq<Option<string>>, x: string)
    requires |meals| == |images|
    requires forall k :: 0 <= k < |meals| && meals[k] == x ==> !IsTruthy(images[k])
    ensures x in Record(index, meals, images) <==> x in index
    ensures x in index ==> Record(index, meals, images)[x] == index[x]
    decreases |meals|
  {
    if meals != [] {
      var n := |meals| - 1;
      RecordKeepsOthers(index, meals[..n], images[..n], x);
    }
  }

  /** A name whose occurrence `k` produced a truthy image, with no truthy
      image at a later occurrence, maps to the image of occurrence `k`. */
  lemma {:induction false} RecordKeepsLast(index: map<string, string>, meals: seq<string>, images: seq<Option<string>>, k: nat)
    requires |meals| == |images| && k < |meals| && IsTruthy(images[k])
    requires forall j :: k < j < |meals| && meals[j] == meals[k] ==> !IsTruthy(images[j])
    ensures meals[k] in Record(index, meals, images)
    ensures Record(index, meals, images)[meals[k]] == images[k].value
    decreases |meals|
  {
    var n := |meals| - 1;
    var before := Record(index, meals[..n], images[..n]);
    assert Record(index, meals, images) ==
      if IsTruthy(images[n]) then before[meals[n] := images[n].value] else before;
    if k < n {
      assert meals[..n][k] == meals[k] && images[..n][k] == images[k];
      RecordKeepsLast(index, meals[..n], images[..n], k);
    }
  }

  /** The keys after the loop: the old keys and the names that produced a
      truthy image. */
  lemma {:induction false} RecordKeys(index: map<string, string>, meals: seq<string>, images: seq<Option<string>>)
    requires |meals| == |images|
    ensures Record(index, meals, images).Keys ==
      index.Keys + set k | 0 <= k < |meals| && IsTruthy(images[k]) :: meals[k]
    decreases |meals|
  {
    if meals != [] {
      var n := |meals| - 1;
      RecordKeys(index, meals[..n], images[..n]);
      var earlier := set k | 0 <= k < n && IsTruthy(images[..n][k]) :: meals[..n][k];
      var all := set k | 0 <= k < |meals| && IsTruthy(images[k]) :: meals[k];
      assert all == if IsTruthy(images[n]) then earlier + {meals[n]} else earlier;
    }
  }

  class Session {
    var allMeals: seq<string>
    var conversation: seq<Message>
    var generatedImages: map<string, string>

    /** Every name with an image was extracted in this session. */
    ghost predicate Valid()
      reads this
    {
      forall x :: x in generatedImages ==> x in allMeals
    }

    /** The initialisation of the three session variables on first use. */
    constructor ()
      ensures allMeals == [] && conversation == [] && generatedImages == map[]
      ensures Valid()
    {
      allMeals := [];
      conversation := [];
      generatedImages := map[];
    }

    /** The reset button. */
    method Reset()
      modifies this
      ensures allMeals == [] && conversation == [] && generatedImages == map[]
      ensures Valid()
    {
      allMeals := [];
      conversation := [];
      generatedImages := map[];
    }

    /** The `for i, meal in enumerate(new_meals)` loop: one request per
        occurrence, in order, storing each truthy result under its meal. */
    method StoreImages(meals: seq<string>, service: ImageService)
      modifies this`generatedImages
      ensures generatedImages == Record(old(generatedImages), meals, Results(meals, service))
    {
      ghost var images := Results(meals, service);
      var i := 0;
      while i < |meals|
        invariant 0 <= i <= |meals|
        invariant generatedImages == Record(old(generatedImages), meals[..i], images[..i])
      {
        assert meals[..i + 1][..i] == meals[..i] && images[..i + 1][..i] == images[..i];
        var image := GenerateImage(service(i, ImagePrompt(meals[i])));
        if IsTruthy(image) {
          generatedImages := generatedImages[meals[i] := image.value];
        }
        i := i + 1;
      }
      assert meals[..i] == meals && images[..i] == images;
    }

    /** One chat turn: assemble the streamed reply, extract its meals, ask
        for an image for every occurrence (there is no cache lookup), store
        the truthy ones, and log the meals. A stream that raises leaves the
        session as it was. `response` is the assembled reply, `None` when the
        stream raised; `shown` is the progressively displayed text. */
    method Turn(stream: Stream, service: ImageService) returns (response: Option<string>, shown: seq<string>)
      modifies this
      ensures response == if stream.broken then None else Accumulated(stream.chunks)
      ensures response.None? ==>
        allMeals == old(allMeals) && generatedImages == old(generatedImages)
      ensures response.Some? ==>
        var meals := ExtractMeals(response.value);
        allMeals == old(allMeals) + meals &&
        generatedImages == Record(old(generatedImages), meals, Results(meals, service))
      ensures response.Some? ==> forall k :: 0 <= k < |shown| ==> shown[k] <= response.value
      ensures conversation == old(conversation)
      ensures forall x :: x in generatedImages ==> x in old(generatedImages) || x in allMeals
      ensures old(Valid()) ==> Valid()
    {
      response, shown := Assemble(stream);
      if response.None? {
        return;
      }
      var meals := ExtractMeals(response.value);
      if |meals| > 0 {
        StoreImages(meals, service);
        allMeals := allMeals + meals;
      }
      assert forall x :: x in meals ==> x in allMeals;
    }
  }

  /** An image service whose download always answers 404. */
  function NotFound(call: nat, prompt: string): Delivery
  {
    Downloaded(404, "")
  }

  /** When every download answers 404, storing the results changes nothing. */
  lemma {:induction false} NotFoundStoresNothing(index: map<string, string>, meals: seq<string>)
    ensures Record(index, meals, Results(meals, NotFound)) == index
    decreases |meals|
  {
    if meals != [] {
      var n := |meals| - 1;
      var images := Results(meals, NotFound);
      assert images[..n] == Results(meals[..n], NotFound);
      assert !IsTruthy(images[n]);
      NotFoundStoresNothing(index, meals[..n]);
    }
  }

  /** A reply naming one meal whose download answers 404: the meal is
      logged and gets no image. */
  method FailedDownloadScenario(meal: string) returns (logged: seq<string>, stored: map<string, string>)
    requires ']' !in meal && '\n' !in meal
    ensures logged == [meal] && stored == map[]
  {
    var reply := "[" + meal + "]";
    SingleMeal("", meal, "");
    assert "" + "[" + meal + "]" + "" == reply;
    var chunks := [Missing, Text(reply)];
    AccumulatedSnoc([], Missing);
    assert [Missing] + [Text(reply)] == chunks;
    AccumulatedSnoc([Missing], Text(reply));
    assert "" + reply == reply;
    NotFoundStoresNothing(map[], [meal]);

    var session := new Session();
    var response, shown := session.Turn(Stream(chunks, false), NotFound);
    assert response == Some(reply);
    assert [] + [meal] == [meal];
    logged, stored := session.allMeals, session.generatedImages;
  }
}
