/**
  `ContentModerationService` (fastapi_seed/services/content_moderation.py):
  a once-initialised service that counts moderation requests in a buffer of
  at most 1000 timestamps, reports a request rate over the last minute, and
  names the classifier's scores by human-readable category. The classifier
  itself is outside the model: its labels and scores are parameters.
*/
module ContentModeration {
  import opened SlidingWindow
  import opened BoundedDeque

  datatype Option<T> = None | Some(value: T)

  /** Size of the request-time buffer (`deque(maxlen=1000)`). */
  const MaxTrackedRequests: nat := 1000
  /** The rate window, in seconds; also the fixed divisor of the rate. */
  const RateWindow: real := 60.0
  const DefaultModelName: string := "KoalaAI/Text-Moderation"

  /** `CATEGORY_MAPPING`: classifier labels to human-readable categories. */
  const CategoryMapping: map<string, string> := map[
    "H" := "Hate Speech",
    "H2" := "Hate Speech (Severe)",
    "HR" := "Hate Speech (Racial)",
    "OK" := "Safe Content",
    "S" := "Sexual Content",
    "S3" := "Sexual Content (Explicit)",
    "SH" := "Sexual Harassment",
    "V" := "Violence",
    "V2" := "Violence (Severe)"
  ]

  /** `CATEGORY_MAPPING.get(modelLabel, modelLabel)` */
  function Category(modelLabel: string): string
  {
    if modelLabel in CategoryMapping then CategoryMapping[modelLabel] else modelLabel
  }

  /** The nine labels of the mapping, each with the category it is shown as. */
  lemma CategoryOfKnownLabels()
    ensures Category("H") == "Hate Speech" && Category("H2") == "Hate Speech (Severe)"
    ensures Category("HR") == "Hate Speech (Racial)" && Category("OK") == "Safe Content"
    ensures Category("S") == "Sexual Content" && Category("S3") == "Sexual Content (Explicit)"
    ensures Category("SH") == "Sexual Harassment"
    ensures Category("V") == "Violence" && Category("V2") == "Violence (Severe)"
  {
  }

  /** The mapping knows exactly these nine labels. */
  lemma CategoryMappingLabels()
    ensures CategoryMapping.Keys == {"H", "H2", "HR", "OK", "S", "S3", "SH", "V", "V2"}
  {
  }

  /** A label outside the mapping is passed through unchanged. */
  lemma CategoryOfUnknownLabel(modelLabel: string)
    requires modelLabel !in CategoryMapping
    ensures Category(modelLabel) == modelLabel
  {
  }

  /** Distinct known labels are shown as distinct categories. */
  lemma CategoryInjectiveOnKnownLabels(a: string, b: string)
    requires a in CategoryMapping && b in CategoryMapping && a != b
    ensures Category(a) != Category(b)
  {
  }

  /**
    No category name is itself a label, so looking a category up again
    changes nothing.
  */
  lemma CategoryIdempotent(modelLabel: string)
    ensures Category(Category(modelLabel)) == Category(modelLabel)
  {
    if modelLabel in CategoryMapping {
      assert CategoryMapping[modelLabel] !in CategoryMapping;
    }
  }

  /** Every index the classifier scores has a label in `id2label`. */
  predicate Labelled(id2label: map<int, string>, n: nat)
  {
    forall i :: 0 <= i < n ==> i in id2label
  }

  /**
    The first `n` steps of the dict comprehension
    `{CATEGORY_MAPPING.get(labels[i], labels[i]): score for i, score in enumerate(scores)}`:
    a later index overwrites an earlier one that has the same category.
  */
  function ScoresByCategory(id2label: map<int, string>, scores: seq<real>, n: nat): (table: map<string, real>)
    requires n <= |scores| && Labelled(id2label, n)
    ensures table.Keys == set i | 0 <= i < n :: Category(id2label[i])
    decreases n
  {
    if n == 0 then map[]
    else ScoresByCategory(id2label, scores, n - 1)[Category(id2label[n - 1]) := scores[n - 1]]
  }

  /**
    The result dictionary of `moderate_text`, or None when some scored index
    has no label (the comprehension raises `KeyError`).
  */
  function ScoreTable(id2label: map<int, string>, scores: seq<real>): (r: Option<map<string, real>>)
    ensures r.None? <==> exists i :: 0 <= i < |scores| && i !in id2label
    ensures r.Some? ==> r.value.Keys == set i | 0 <= i < |scores| :: Category(id2label[i])
  {
    if Labelled(id2label, |scores|) then Some(ScoresByCategory(id2label, scores, |scores|)) else None
  }

  /** An index whose category no later index shares keeps its own score. */
  lemma {:induction false} ScoresByCategoryLastWins(id2label: map<int, string>, scores: seq<real>, n: nat, i: nat)
    requires n <= |scores| && Labelled(id2label, n) && i < n
    requires forall j :: i < j < n ==> Category(id2label[j]) != Category(id2label[i])
    ensures ScoresByCategory(id2label, scores, n)[Category(id2label[i])] == scores[i]
    decreases n
  {
    if i < n - 1 {
      ScoresByCategoryLastWins(id2label, scores, n - 1, i);
    }
  }

  /**
    When the classifier's labels are distinct labels of the mapping, no score
    is lost: each one is found under its own category.
  */
  lemma ScoreTableKeepsEveryScore(id2label: map<int, string>, scores: seq<real>)
    requires Labelled(id2label, |scores|)
    requires forall i :: 0 <= i < |scores| ==> id2label[i] in CategoryMapping
    requires forall i, j :: 0 <= i < j < |scores| ==> id2label[i] != id2label[j]
    ensures ScoreTable(id2label, scores).Some?
    ensures forall i :: 0 <= i < |scores| ==>
      ScoreTable(id2label, scores).value[Category(id2label[i])] == scores[i]
  {
    forall i | 0 <= i < |scores|
      ensures ScoresByCategory(id2label, scores, |scores|)[Category(id2label[i])] == scores[i]
    {
      forall j | i < j < |scores| ensures Category(id2label[j]) != Category(id2label[i]) {
        CategoryInjectiveOnKnownLabels(id2label[j], id2label[i]);
      }
      ScoresByCategoryLastWins(id2label, scores, |scores|, i);
    }
  }

  /**
    `get_request_rate` after eviction: zero for an empty buffer, otherwise the
    count divided by a fixed 60 seconds, whatever span the timestamps cover.
  */
  function MinuteRate(s: seq<real>): (rate: real)
    ensures rate == 0.0 <==> s == []
    ensures rate * RateWindow == |s| as real
    ensures |s| <= MaxTrackedRequests ==> rate <= MaxTrackedRequests as real / RateWindow
  {
    if s == [] then 0.0 else |s| as real / 60.0
  }

  /**
    Once time has moved past the oldest timestamp, dividing by the whole
    minute never gives more than the middleware's trailing rate over the same
    buffer, provided its stale timestamps are gone.
  */
  lemma MinuteRateAtMostTrailingRate(s: seq<real>, now: real)
    requires s != [] && now > s[0] && s[0] >= now - RateWindow
    ensures MinuteRate(s) <= TrailingRate(s, now)
  {
    TrailingRateAtLeastCountOverWindow(s, now, RateWindow);
  }

  /**
    At zero span the comparison turns round: a lone request read at its own
    time counts as one per minute here, while the middleware reports 0.
  */
  lemma MinuteRateExceedsTrailingRateAtZeroSpan(t: real)
    ensures MinuteRate([t]) == 1.0 / RateWindow
    ensures TrailingRate([t], t) == 0.0
    ensures MinuteRate([t]) > TrailingRate([t], t)
  {
  }

  /**
    The moderation endpoint records a request at `t1` and reads the rate at
    a later `t2`, after inference: the request just recorded is counted as
    long as the rate is read within a minute of it.
  */
  lemma RecordedRequestIsCounted(s: seq<real>, t1: real, t2: real)
    requires |s| <= MaxTrackedRequests
    requires t1 <= t2 <= t1 + RateWindow
    ensures MinuteRate(EvictStale(Push(s, MaxTrackedRequests, t1), t2 - RateWindow)) >= 1.0 / RateWindow
  {
    var p := Push(s, MaxTrackedRequests, t1);
    assert p[|p| - 1] == t1;
    EvictStaleIsSuffix(p, t2 - RateWindow);
  }

  /**
    The converse: when inference takes more than a minute, every request
    recorded so far (at or before `t1`) is stale by `t2`, so the rate read
    is 0 even though a request was just recorded.
  */
  lemma RecordedRequestExpires(s: seq<real>, t1: real, t2: real)
    requires |s| <= MaxTrackedRequests && AllAtOrBefore(s, t1)
    requires t2 > t1 + RateWindow
    ensures EvictStale(Push(s, MaxTrackedRequests, t1), t2 - RateWindow) == []
    ensures MinuteRate(EvictStale(Push(s, MaxTrackedRequests, t1), t2 - RateWindow)) == 0.0
  {
    var p := Push(s, MaxTrackedRequests, t1);
    assert AllAtOrBefore(p, t1);
    EvictStaleIsSuffix(p, t2 - RateWindow);
    if EvictStale(p, t2 - RateWindow) != [] {
      assert false;
    }
  }

  class ContentModerationService {
    /** The `_initialized` flag: false until `__init__` has run once. */
    var initialized: bool
    var modelName: string
    /** `request_times`, the bounded deque `__init__` creates. */
    var requestTimes: TimestampDeque

    ghost predicate Valid()
      reads this, requestTimes, requestTimes.data
    {
      requestTimes.Valid() && requestTimes.capacity == MaxTrackedRequests
    }

    /**
      `super().__new__(cls)`: a bare instance that `__init__` has not set
      up. Its buffer is a placeholder until `Init` creates the real one.
    */
    constructor ()
      ensures Valid() && !initialized && requestTimes.Contents == []
      ensures fresh(requestTimes) && fresh(requestTimes.data)
    {
      initialized := false;
      modelName := "";
      requestTimes := new TimestampDeque(MaxTrackedRequests);
    }

    /**
      `__init__`: the first call records the model name and creates an empty
      request buffer; any later call changes nothing.
    */
    method Init(modelName: string := DefaultModelName)
      requires Valid()
      modifies this
      ensures Valid() && initialized
      ensures old(initialized) ==> unchanged(this)
      ensures !old(initialized) ==> && this.modelName == modelName && requestTimes.Contents == []
                                    && fresh(requestTimes) && fresh(requestTimes.data)
    {
      if !initialized {
        this.modelName := modelName;
        requestTimes := new TimestampDeque(MaxTrackedRequests);
        initialized := true;
      }
    }

    /** The request tracking of `moderate_text`: append the current time. */
    method RecordRequest(now: real)
      requires Valid()
      modifies requestTimes, requestTimes.data
      ensures Valid()
      ensures requestTimes.Contents == Push(old(requestTimes.Contents), MaxTrackedRequests, now)
    {
      requestTimes.Append(now);
    }

    /**
      `get_request_rate`: pop the timestamps older than a minute from the
      front, then divide the count by 60.
    */
    method GetRequestRate(currentTime: real) returns (rate: real)
      requires Valid()
      modifies requestTimes
      ensures Valid()
      ensures requestTimes.Contents == EvictStale(old(requestTimes.Contents), currentTime - 60.0)
      ensures rate == MinuteRate(requestTimes.Contents)
      ensures 0.0 <= rate <= MaxTrackedRequests as real / RateWindow
    {
      var oneMinuteAgo := currentTime - 60.0;
      while requestTimes.Size() > 0 && requestTimes.Front() < oneMinuteAgo
        invariant requestTimes.Valid()
        invariant EvictStale(requestTimes.Contents, oneMinuteAgo) == EvictStale(old(requestTimes.Contents), oneMinuteAgo)
        decreases |requestTimes.Contents|
      {
        var _ := requestTimes.PopLeft();
      }
      if requestTimes.Size() == 0 {
        return 0.0;
      }
      rate := requestTimes.Size() as real / 60.0;
    }

    /**
      `moderate_text` with the classifier's output given: the request is
      recorded first, then the scores are named by category. A missing label
      still leaves the request recorded.
    */
    method ModerateText(now: real, id2label: map<int, string>, scores: seq<real>)
      returns (result: Option<map<string, real>>)
      requires Valid()
      modifies requestTimes, requestTimes.data
      ensures Valid()
      ensures requestTimes.Contents == Push(old(requestTimes.Contents), MaxTrackedRequests, now)
      ensures result == ScoreTable(id2label, scores)
    {
      RecordRequest(now);
      result := ScoreTable(id2label, scores);
    }

    /**
      The moderation endpoint: moderate the text at `t1`, then read the rate
      at `t2`. When a scored index has no label, `moderate_text` raises after
      recording the request, so the rate is never read and the buffer is left
      pushed but not evicted. Read within a minute, the rate counts the
      request just made.
    */
    method ModerateContent(t1: real, t2: real, id2label: map<int, string>, scores: seq<real>)
      returns (result: Option<map<string, real>>, rate: Option<real>)
      requires Valid()
      modifies requestTimes, requestTimes.data
      ensures Valid()
      ensures result == ScoreTable(id2label, scores)
      ensures result.None? ==>
                (rate.None? && requestTimes.Contents == Push(old(requestTimes.Contents), MaxTrackedRequests, t1))
      ensures result.Some? ==>
                (&& rate.Some?
                 && requestTimes.Contents
                    == EvictStale(Push(old(requestTimes.Contents), MaxTrackedRequests, t1), t2 - RateWindow)
                 && rate.value == MinuteRate(requestTimes.Contents))
      ensures result.Some? && t1 <= t2 <= t1 + RateWindow ==> rate.value >= 1.0 / RateWindow
    {
      result := ModerateText(t1, id2label, scores);
      if result.None? {
        return result, None;
      }
      var r := GetRequestRate(t2);
      rate := Some(r);
      if t1 <= t2 <= t1 + RateWindow {
        RecordedRequestIsCounted(old(requestTimes.Contents), t1, t2);
      }
    }
  }

  /**
    A text whose scored index has no label: the request stays recorded and
    no rate is read, however late the rate would have been read.
  */
  method ScenarioMissingLabel()
  {
    var registry := new ServiceRegistry();
    var service := registry.Construct();
    var result, rate := service.ModerateContent(0.0, 100.0, map[], [0.5]);
    assert result.None? && rate.None?;
    assert service.requestTimes.Contents == [0.0];
  }

  /**
    The class object of `ContentModerationService`: its `_instance`
    attribute, set by the first `__new__`.
  */
  class ServiceRegistry {
    var instance: ContentModerationService?

    ghost predicate Valid()
      reads this, instance
    {
      instance != null ==> instance.initialized
    }

    constructor ()
      ensures Valid() && instance == null
    {
      instance := null;
    }

    /**
      `ContentModerationService(model_name)` and `initialize(model_name)`:
      `__new__` hands out the one instance, creating it on first use, and
      `__init__` sets it up only the first time. A later construction
      returns the same object with its model name and request buffer
      untouched.
    */
    method Construct(modelName: string := DefaultModelName) returns (service: ContentModerationService)
      requires Valid()
      requires instance != null ==> instance.Valid()
      modifies this, instance
      ensures Valid() && instance == service && service.initialized && service.Valid()
      ensures old(instance) == null ==> && fresh(service) && service.modelName == modelName
                                        && service.requestTimes.Contents == []
                                        && fresh(service.requestTimes) && fresh(service.requestTimes.data)
      ensures old(instance) != null ==> service == old(instance) && unchanged(service) && unchanged(service.requestTimes)
    {
      if instance == null {
        instance := new ContentModerationService();
      }
      service := instance;
      service.Init(modelName);
    }
  }

  /**
    The endpoint's lifecycle: the service is built with the default model
    name, moderates one text, and a later construction with another name
    hands back the same, already recorded, instance.
  */
  method ServiceLifecycle()
  {
    var registry := new ServiceRegistry();
    var service := registry.Construct();
    var result := service.ModerateText(1.0, map[0 := "OK"], [0.25]);
    assert result == Some(map["Safe Content" := 0.25]);
    var again := registry.Construct("another/model");
    assert again == service && again.modelName == DefaultModelName;
    assert again.requestTimes.Contents == [1.0];
  }
}
