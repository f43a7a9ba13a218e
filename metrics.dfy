/** TikTokBot/metrics.py: feed-diversity measures over tables of VideoInfo rows. A table
    is its columns by name, each as long as the table; ratios are exact reals built from
    integer counts. */
module Metrics {
  import opened Wrappers
  import opened VideoRecord

  // ---------------------------------------------------------------------------
  // Tables, columns, sets of values
  // ---------------------------------------------------------------------------

  datatype Table = Table(height: nat, columns: map<string, seq<Value>>)

  /** A DataFrame: every column has one value per row. */
  type Frame = t: Table | forall c :: c in t.columns ==> |t.columns[c]| == t.height
    witness Table(0, map[])

  /** feed[feature]. */
  function Column(feed: Frame, feature: string): (r: Result<seq<Value>>)
    ensures r.Ok? <==> feature in feed.columns
    ensures r.Ok? ==> |r.value| == feed.height
    ensures r.Err? ==> r.error == KeyError
  {
    if feature in feed.columns then Ok(feed.columns[feature]) else Err(KeyError)
  }

  function Elements<T>(s: seq<T>): set<T>
  {
    set k | 0 <= k < |s| :: s[k]
  }

  /** A sequence has at most as many distinct elements as it is long, and exactly as many
      when no element repeats. */
  lemma {:induction false} ElementsCount<T>(s: seq<T>)
    ensures |Elements(s)| <= |s|
    ensures |Elements(s)| == |s| <==> Distinct(s)
    decreases |s|
  {
    if s != [] {
      var front, x := s[..|s| - 1], s[|s| - 1];
      ElementsCount(front);
      assert Elements(s) == Elements(front) + {x} by {
        forall k | 0 <= k < |front|
          ensures front[k] == s[k]
        {
        }
      }
      if x in Elements(front) {
        var m :| 0 <= m < |front| && front[m] == x;
        assert s[m] == s[|s| - 1];
      } else {
        assert |Elements(s)| == |Elements(front)| + 1;
        if Distinct(front) {
          forall a, b | 0 <= a < b < |s|
            ensures s[a] != s[b]
          {
            if b < |s| - 1 {
              assert s[a] == front[a] && s[b] == front[b];
            } else {
              assert s[a] == front[a] && front[a] in Elements(front);
            }
          }
        } else {
          var a, b :| 0 <= a < b < |front| && front[a] == front[b];
          assert s[a] == s[b];
        }
      }
    }
  }

  /** set(values): a list is unhashable and raises TypeError. */
  function HashableSet(col: seq<Value>): (r: Result<set<Value>>)
    ensures r.Ok? <==> forall k :: 0 <= k < |col| ==> !col[k].StrList?
    ensures r.Ok? ==> r.value == Elements(col)
    ensures r.Err? ==> r.error == TypeError
  {
    if exists k :: 0 <= k < |col| && col[k].StrList? then Err(TypeError) else Ok(Elements(col))
  }

  /** set(feed[feature]). */
  function ColumnSet(feed: Frame, feature: string): Result<set<Value>>
  {
    match Column(feed, feature)
    case Err(e) => Err(e)
    case Ok(col) => HashableSet(col)
  }

  // ---------------------------------------------------------------------------
  // jaccard_index
  // ---------------------------------------------------------------------------

  /** jaccard_index: the size of the intersection of the two feeds' sets of feature values
      over the size of their union. */
  function JaccardIndex(f1: Frame, f2: Frame, feature: string): Result<real>
  {
    match ColumnSet(f1, feature)
    case Err(e) => Err(e)
    case Ok(a) =>
      match ColumnSet(f2, feature)
      case Err(e) => Err(e)
      case Ok(b) => if |a + b| == 0 then Err(ZeroDivisionError) else Ok(|a * b| as real / |a + b| as real)
  }

  lemma IntersectionWithinUnion<T>(a: set<T>, b: set<T>)
    ensures |a * b| <= |a + b|
    ensures |a * b| == |a + b| <==> a == b
  {
    assert |a + b| == |a - b| + |b - a| + |a * b|;
    if |a * b| == |a + b| {
      assert |a - b| == 0 && |b - a| == 0;
      assert a - b == {} && b - a == {};
      assert a <= b && b <= a;
    }
  }

  /** A count over a larger non-zero count is a ratio in [0, 1], equal to 1 only when the
      counts are equal. */
  lemma Ratio(x: nat, y: nat)
    requires x <= y && 0 < y
    ensures 0.0 <= x as real / y as real <= 1.0
    ensures x as real / y as real == 1.0 <==> x == y
  {
    var r := x as real / y as real;
    assert r * y as real == x as real;
    if r == 1.0 {
      assert x as real == y as real;
    }
  }

  /** The index of two sets: in [0, 1], and 1 exactly when they are equal. */
  lemma JaccardOfSets(a: set<Value>, b: set<Value>)
    requires |a + b| > 0
    ensures 0.0 <= |a * b| as real / |a + b| as real <= 1.0
    ensures |a * b| as real / |a + b| as real == 1.0 <==> a == b
  {
    IntersectionWithinUnion(a, b);
    Ratio(|a * b|, |a + b|);
  }

  /** The index lies in [0, 1] and is 1 exactly when the two sets of values are equal. */
  lemma JaccardBounds(f1: Frame, f2: Frame, feature: string)
    ensures JaccardIndex(f1, f2, feature).Ok? ==> 0.0 <= JaccardIndex(f1, f2, feature).value <= 1.0
    ensures JaccardIndex(f1, f2, feature).Ok? ==>
              (JaccardIndex(f1, f2, feature).value == 1.0 <==> Elements(f1.columns[feature]) == Elements(f2.columns[feature]))
  {
    var r1 := ColumnSet(f1, feature);
    var r2 := ColumnSet(f2, feature);
    if r1.Ok? && r2.Ok? && |r1.value + r2.value| > 0 {
      JaccardOfSets(r1.value, r2.value);
    }
  }

  lemma EmptyColumn(col: seq<Value>)
    ensures Elements(col) == {} <==> |col| == 0
  {
    if |col| > 0 {
      assert col[0] in Elements(col);
    }
  }

  /** jaccard_index divides by zero exactly when both feeds have the feature column, it
      holds no list, and both feeds are empty. */
  lemma JaccardZeroDivision(f1: Frame, f2: Frame, feature: string)
    ensures JaccardIndex(f1, f2, feature) == Err(ZeroDivisionError) <==>
              ColumnSet(f1, feature).Ok? && ColumnSet(f2, feature).Ok? && f1.height == 0 && f2.height == 0
  {
    if feature in f1.columns && feature in f2.columns {
      EmptyColumn(f1.columns[feature]);
      EmptyColumn(f2.columns[feature]);
    }
  }

  /** Comparing f1 with f2 gives the same index as comparing f2 with f1 (when neither
      raises; the error raised first can differ). */
  lemma JaccardSymmetric(f1: Frame, f2: Frame, feature: string)
    ensures JaccardIndex(f1, f2, feature).Ok? <==> JaccardIndex(f2, f1, feature).Ok?
    ensures JaccardIndex(f1, f2, feature).Ok? ==> JaccardIndex(f1, f2, feature) == JaccardIndex(f2, f1, feature)
  {
    var r1 := ColumnSet(f1, feature);
    var r2 := ColumnSet(f2, feature);
    if r1.Ok? && r2.Ok? {
      assert r1.value * r2.value == r2.value * r1.value;
      assert r1.value + r2.value == r2.value + r1.value;
    }
  }

  /** A non-empty feed compared with itself has index 1. */
  lemma JaccardSelf(f: Frame, feature: string)
    requires JaccardIndex(f, f, feature).Ok?
    ensures JaccardIndex(f, f, feature) == Ok(1.0)
  {
    JaccardBounds(f, f, feature);
  }

  // ---------------------------------------------------------------------------
  // feature_diversity
  // ---------------------------------------------------------------------------

  /** [i for l in values for i in l]: a list gives its items, a string its characters;
      anything else (None, a number) is not iterable and raises TypeError. */
  function Flatten(col: seq<Value>): (r: Result<seq<string>>)
    ensures r.Ok? <==> forall k :: 0 <= k < |col| ==> col[k].StrList? || col[k].Str?
    ensures r.Err? ==> r.error == TypeError
    decreases |col|
  {
    if col == [] then Ok([])
    else
      var first := match col[0]
        case StrList(items) => Ok(items)
        case Str(text) => Ok(seq(|text|, i requires 0 <= i < |text| => [text[i]]))
        case _ => Err(TypeError);
      match first
      case Err(e) => Err(e)
      case Ok(items) =>
        match Flatten(col[1..])
        case Err(e) =>
          assert exists k :: 0 <= k < |col[1..]| && !(col[1..][k].StrList? || col[1..][k].Str?);
          Err(e)
        case Ok(rest) =>
          assert forall k :: 0 < k < |col| ==> col[k] == col[1..][k - 1];
          Ok(items + rest)
  }

  /** The scalar branch: distinct values (Series.unique, which raises TypeError on a list)
      over the number of rows. */
  function ScalarDiversity(col: seq<Value>): Result<real>
  {
    match HashableSet(col)
    case Err(e) => Err(e)
    case Ok(values) => if |col| == 0 then Err(ZeroDivisionError) else Ok(|values| as real / |col| as real)
  }

  /** The list branch: distinct items over all items of the flattened lists. */
  function ListDiversity(col: seq<Value>): Result<real>
  {
    match Flatten(col)
    case Err(e) => Err(e)
    case Ok(items) => if |items| == 0 then Err(ZeroDivisionError) else Ok(|Elements(items)| as real / |items| as real)
  }

  /** feature_diversity as written: the branch is chosen by the first value of the feature
      in the module-level table f1, not in `feed`. That global is assigned only when
      metrics.py runs as a script, so `global` is None whenever the module is imported and
      the call raises NameError. On a table, [0] is the first row (an empty table raises
      KeyError). */
  function FeatureDiversityAsWritten(global: Option<Frame>, feed: Frame, feature: string): Result<real>
  {
    match global
    case None => Err(NameError)
    case Some(f1) =>
      match Column(f1, feature)
      case Err(e) => Err(e)
      case Ok(probe) =>
        if |probe| == 0 then Err(KeyError)
        else match Column(feed, feature)
          case Err(e) => Err(e)
          case Ok(col) => if probe[0].StrList? then ListDiversity(col) else ScalarDiversity(col)
  }

  /** feature_diversity as evidently intended: the branch is chosen by the feed's own
      first value. It is the as-written function with f1 bound to the feed itself. */
  function FeatureDiversity(feed: Frame, feature: string): (r: Result<real>)
    ensures r == FeatureDiversityAsWritten(Some(feed), feed, feature)
  {
    match Column(feed, feature)
    case Err(e) => Err(e)
    case Ok(col) =>
      if |col| == 0 then Err(KeyError)
      else if col[0].StrList? then ListDiversity(col) else ScalarDiversity(col)
  }

  /** Imported from another module, the function as written fails on every feed, while
      the corrected one measures a one-row feed as fully diverse. */
  lemma FeatureDiversityUnboundGlobal(feed: Frame, feature: string)
    ensures FeatureDiversityAsWritten(None, feed, feature) == Err(NameError)
    ensures feed == Table(1, map[feature := [Str("alice")]]) ==> FeatureDiversity(feed, feature) == Ok(1.0)
  {
    if feed == Table(1, map[feature := [Str("alice")]]) {
      var col := feed.columns[feature];
      assert col[0] == Str("alice") && col[0] in Elements(col);
      assert |Elements(col)| == 1 by {
        assert Elements(col) == {Str("alice")};
      }
    }
  }

  /** Diversity of a scalar column: in (0, 1], and 1 exactly when no value repeats. */
  lemma ScalarDiversityBounds(col: seq<Value>)
    requires ScalarDiversity(col).Ok?
    ensures 0.0 < ScalarDiversity(col).value <= 1.0
    ensures ScalarDiversity(col).value == 1.0 <==> Distinct(col)
  {
    ElementsCount(col);
    assert col[0] in Elements(col);
    Ratio(|Elements(col)|, |col|);
  }

  /** Diversity of a list column: in (0, 1], and 1 exactly when no item repeats across
      all the lists. */
  lemma ListDiversityBounds(col: seq<Value>)
    requires ListDiversity(col).Ok?
    ensures 0.0 < ListDiversity(col).value <= 1.0
    ensures ListDiversity(col).value == 1.0 <==> Distinct(Flatten(col).value)
  {
    var items := Flatten(col).value;
    ElementsCount(items);
    assert items[0] in Elements(items);
    Ratio(|Elements(items)|, |items|);
  }

  /** 1 means every value (or, for a list feature, every item) is unique; anything less
      means repetitions. */
  lemma FeatureDiversityBounds(feed: Frame, feature: string)
    requires FeatureDiversity(feed, feature).Ok?
    ensures 0.0 < FeatureDiversity(feed, feature).value <= 1.0
    ensures var col := feed.columns[feature];
            FeatureDiversity(feed, feature).value == 1.0 <==>
              if col[0].StrList? then Distinct(Flatten(col).value) else Distinct(col)
  {
    var col := feed.columns[feature];
    if col[0].StrList? {
      ListDiversityBounds(col);
    } else {
      ScalarDiversityBounds(col);
    }
  }

  // ---------------------------------------------------------------------------
  // topic_presence
  // ---------------------------------------------------------------------------

  /** set(post["tags"]): the items of a list, the characters of a string; anything else
      raises TypeError. */
  function TagSet(v: Value): (r: Result<set<string>>)
    ensures r.Err? <==> !(v.StrList? || v.Str?)
    ensures r.Err? ==> r.error == TypeError
  {
    match v
    case StrList(items) => Ok(Elements(items))
    case Str(text) => Ok(set k | 0 <= k < |text| :: [text[k]])
    case _ => Err(TypeError)
  }

  /** A post is relevant when at least `threshold` of the topic tags are among its tags. */
  predicate Relevant(tags: set<string>, topicTags: set<string>, threshold: int)
  {
    |topicTags * tags| >= threshold
  }

  /** The number of relevant posts among the tags cells, or the error of the first cell
      that is not iterable. */
  function RelevantCount(cells: seq<Value>, topicTags: set<string>, threshold: int): (r: Result<nat>)
    ensures r.Ok? ==> r.value <= |cells|
    ensures r.Ok? <==> forall k :: 0 <= k < |cells| ==> TagSet(cells[k]).Ok?
    decreases |cells|
  {
    if cells == [] then Ok(0)
    else
      var front := cells[..|cells| - 1];
      assert forall k :: 0 <= k < |front| ==> front[k] == cells[k];
      match RelevantCount(front, topicTags, threshold)
      case Err(e) => Err(e)
      case Ok(n) =>
        match TagSet(cells[|cells| - 1])
        case Err(e) => Err(e)
        case Ok(tags) => Ok(if Relevant(tags, topicTags, threshold) then n + 1 else n)
  }

  /** topic_presence as a value: the share of posts that are relevant. */
  function TopicPresenceOf(feed: Frame, topicTags: set<string>, threshold: int): Result<real>
  {
    if feed.height == 0 then Err(ZeroDivisionError)
    else if "tags" !in feed.columns then Err(KeyError)
    else match RelevantCount(feed.columns["tags"], topicTags, threshold)
      case Err(e) => Err(e)
      case Ok(n) => Ok(n as real / feed.height as real)
  }

  /** Once a prefix of the cells raises, so do all the cells, with the same error. */
  lemma {:induction false} RelevantCountErrPrefix(cells: seq<Value>, k: nat, topicTags: set<string>, threshold: int)
    requires k <= |cells| && RelevantCount(cells[..k], topicTags, threshold).Err?
    ensures RelevantCount(cells, topicTags, threshold) == RelevantCount(cells[..k], topicTags, threshold)
    decreases |cells| - k
  {
    if k < |cells| {
      var longer := cells[..k + 1];
      assert longer[..|longer| - 1] == cells[..k];
      RelevantCountErrPrefix(cells, k + 1, topicTags, threshold);
    } else {
      assert cells[..k] == cells;
    }
  }

  /** The count over one more row: that row's tag set decides. */
  lemma RelevantCountStep(cells: seq<Value>, ix: nat, topicTags: set<string>, threshold: int, n: nat)
    requires ix < |cells| && RelevantCount(cells[..ix], topicTags, threshold) == Ok(n)
    ensures TagSet(cells[ix]).Err? ==> RelevantCount(cells[..ix + 1], topicTags, threshold) == Err(TagSet(cells[ix]).error)
    ensures TagSet(cells[ix]).Ok? ==>
              RelevantCount(cells[..ix + 1], topicTags, threshold) ==
              Ok(if Relevant(TagSet(cells[ix]).value, topicTags, threshold) then n + 1 else n)
  {
    assert cells[..ix + 1][..ix] == cells[..ix];
  }

  /** topic_presence: a loop over the rows counting the relevant posts, then the count
      over the number of rows. */
  method TopicPresence(feed: Frame, topicTags: set<string>, threshold: int) returns (r: Result<real>)
    ensures r == TopicPresenceOf(feed, topicTags, threshold)
    ensures feed.height == 0 ==> r == Err(ZeroDivisionError)
  {
    var relevantCount := 0;
    var ix := 0;
    while ix < feed.height
      invariant 0 <= ix <= feed.height
      invariant ix > 0 ==> "tags" in feed.columns
      invariant "tags" in feed.columns ==>
                  RelevantCount(feed.columns["tags"][..ix], topicTags, threshold) == Ok(relevantCount)
    {
      if "tags" !in feed.columns {
        return Err(KeyError);
      }
      var cells := feed.columns["tags"];
      RelevantCountStep(cells, ix, topicTags, threshold, relevantCount);
      match TagSet(cells[ix]) {
        case Err(e) =>
          assert RelevantCount(cells, topicTags, threshold) == Err(e) by {
            RelevantCountErrPrefix(cells, ix + 1, topicTags, threshold);
          }
          return Err(e);
        case Ok(tags) =>
          if |topicTags * tags| >= threshold {
            relevantCount := relevantCount + 1;
          }
      }
      ix := ix + 1;
    }
    if feed.height == 0 {
      return Err(ZeroDivisionError);
    }
    assert feed.columns["tags"][..ix] == feed.columns["tags"];
    r := Ok(relevantCount as real / feed.height as real);
  }

  /** The share of relevant posts lies in [0, 1]. */
  lemma TopicPresenceBounds(feed: Frame, topicTags: set<string>, threshold: int)
    ensures TopicPresenceOf(feed, topicTags, threshold).Ok? ==>
              0.0 <= TopicPresenceOf(feed, topicTags, threshold).value <= 1.0
  {
    if TopicPresenceOf(feed, topicTags, threshold).Ok? {
      Ratio(RelevantCount(feed.columns["tags"], topicTags, threshold).value, feed.height);
    }
  }

  lemma {:induction false} RelevantCountMonotone(cells: seq<Value>, topicTags: set<string>, t1: int, t2: int)
    requires t1 <= t2
    ensures RelevantCount(cells, topicTags, t1).Ok? <==> RelevantCount(cells, topicTags, t2).Ok?
    ensures RelevantCount(cells, topicTags, t1).Ok? ==>
              RelevantCount(cells, topicTags, t2).value <= RelevantCount(cells, topicTags, t1).value
    decreases |cells|
  {
    if cells != [] {
      RelevantCountMonotone(cells[..|cells| - 1], topicTags, t1, t2);
    }
  }

  /** Asking for more matching topic tags never makes more posts relevant. */
  lemma TopicPresenceMonotone(feed: Frame, topicTags: set<string>, t1: int, t2: int)
    requires t1 <= t2
    ensures TopicPresenceOf(feed, topicTags, t1).Ok? <==> TopicPresenceOf(feed, topicTags, t2).Ok?
    ensures TopicPresenceOf(feed, topicTags, t1).Ok? ==>
              TopicPresenceOf(feed, topicTags, t2).value <= TopicPresenceOf(feed, topicTags, t1).value
  {
    if feed.height > 0 && "tags" in feed.columns {
      var cells := feed.columns["tags"];
      RelevantCountMonotone(cells, topicTags, t1, t2);
      if RelevantCount(cells, topicTags, t1).Ok? {
        RatioMonotone(RelevantCount(cells, topicTags, t2).value, RelevantCount(cells, topicTags, t1).value, feed.height);
      }
    }
  }

  lemma RatioMonotone(x: nat, y: nat, h: nat)
    requires x <= y && 0 < h
    ensures x as real / h as real <= y as real / h as real
  {
    assert (x as real / h as real) * h as real == x as real;
    assert (y as real / h as real) * h as real == y as real;
  }

  lemma {:induction false} RelevantCountAll(cells: seq<Value>, topicTags: set<string>, threshold: int)
    requires threshold <= 0 && RelevantCount(cells, topicTags, threshold).Ok?
    ensures RelevantCount(cells, topicTags, threshold).value == |cells|
    decreases |cells|
  {
    if cells != [] {
      RelevantCountAll(cells[..|cells| - 1], topicTags, threshold);
    }
  }

  /** With a threshold of 0 (or less) every post is relevant: a non-empty feed scores 1. */
  lemma TopicPresenceThresholdZero(feed: Frame, topicTags: set<string>, threshold: int)
    requires threshold <= 0 && TopicPresenceOf(feed, topicTags, threshold).Ok?
    ensures TopicPresenceOf(feed, topicTags, threshold).value == 1.0
  {
    var cells := feed.columns["tags"];
    assert RelevantCount(cells, topicTags, threshold).value == feed.height by {
      RelevantCountAll(cells, topicTags, threshold);
    }
    Ratio(feed.height, feed.height);
  }

  /** Two tags columns whose cells hold the same sets of tags, row by row. */
  predicate SameTagSets(c1: seq<Value>, c2: seq<Value>)
  {
    |c1| == |c2| && forall k :: 0 <= k < |c1| ==> TagSet(c1[k]) == TagSet(c2[k])
  }

  lemma {:induction false} RelevantCountOfSameTagSets(c1: seq<Value>, c2: seq<Value>, topicTags: set<string>, threshold: int)
    requires SameTagSets(c1, c2)
    ensures RelevantCount(c1, topicTags, threshold) == RelevantCount(c2, topicTags, threshold)
    decreases |c1|
  {
    if c1 != [] {
      var f1, f2 := c1[..|c1| - 1], c2[..|c2| - 1];
      assert forall k :: 0 <= k < |f1| ==> f1[k] == c1[k] && f2[k] == c2[k];
      RelevantCountOfSameTagSets(f1, f2, topicTags, threshold);
      assert TagSet(c1[|c1| - 1]) == TagSet(c2[|c2| - 1]);
    }
  }

  /** Repeating a tag a post already has changes nothing. */
  lemma TagSetIgnoresRepeats(items: seq<string>, k: nat)
    requires k < |items|
    ensures TagSet(StrList(items + [items[k]])) == TagSet(StrList(items))
  {
    var longer := items + [items[k]];
    forall v | v in Elements(longer)
      ensures v in Elements(items)
    {
      var m :| 0 <= m < |longer| && longer[m] == v;
      if m == |items| {
        assert v == items[k];
      } else {
        assert v == items[m];
      }
    }
    forall v | v in Elements(items)
      ensures v in Elements(longer)
    {
      var m :| 0 <= m < |items| && items[m] == v;
      assert longer[m] == v;
    }
    assert Elements(longer) == Elements(items);
  }

  /** Only each post's set of tags matters: tags columns with the same sets row by row
      (for instance, one with repeated tags and one without) give the same presence. */
  lemma TopicPresenceOfSameTagSets(feed1: Frame, feed2: Frame, topicTags: set<string>, threshold: int)
    requires feed1.height == feed2.height
    requires "tags" in feed1.columns && "tags" in feed2.columns
    requires SameTagSets(feed1.columns["tags"], feed2.columns["tags"])
    ensures TopicPresenceOf(feed1, topicTags, threshold) == TopicPresenceOf(feed2, topicTags, threshold)
  {
    RelevantCountOfSameTagSets(feed1.columns["tags"], feed2.columns["tags"], topicTags, threshold);
  }
}
