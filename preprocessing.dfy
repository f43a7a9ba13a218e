/** TikTokBot/preprocessing.py: turning the tags column back into a list, the emoji
    filter, the common-tag heuristic, and the clean-up of a table of VideoInfo rows
    (duplicates dropped, the first row of each id kept, tags parsed in place). */
module Preprocessing {
  import opened Wrappers
  import opened Text
  import opened VideoRecord

  // ---------------------------------------------------------------------------
  // re.findall("<opener>(.+?)[<closers>]", s)
  // ---------------------------------------------------------------------------

  /** The lazy group `(.+?)` of a match whose opener was just read, with `t` the text
      after the opener and t[..k+1] taken so far: the position of the character that
      closes the group, or None. The group takes at least one character, never a
      newline (`.` does not match one), and stops at the first closer it reaches. */
  function LazyEnd(t: string, k: nat, closers: set<char>): (r: Option<nat>)
    requires k <= |t| && '\n' !in t[..k]
    ensures r.Some? ==> k < r.value < |t| && t[r.value] in closers && '\n' !in t[..r.value]
    ensures r.Some? ==> forall j :: k < j < r.value ==> t[j] !in closers
    ensures r.None? ==> forall j :: k < j < |t| && t[j] in closers ==> '\n' in t[..j]
    decreases |t| - k
  {
    if k == |t| || t[k] == '\n' then None
    else if k + 1 < |t| && t[k + 1] in closers then Some(k + 1)
    else
      assert t[..k + 1] == t[..k] + [t[k]];
      LazyEnd(t, k + 1, closers)
  }

  /** re.findall with one group: the groups of the successive non-overlapping matches,
      scanning left to right; after a match the scan resumes past its closer, after a
      failed attempt at the next character. */
  function FindAll(s: string, opener: char, closers: set<char>): (groups: seq<string>)
    ensures forall k :: 0 <= k < |groups| ==> |groups[k]| >= 1 && '\n' !in groups[k]
    decreases |s|
  {
    if s == [] then []
    else if s[0] != opener then FindAll(s[1..], opener, closers)
    else match LazyEnd(s[1..], 0, closers)
      case None => FindAll(s[1..], opener, closers)
      case Some(m) => [s[1..][..m]] + FindAll(s[1..][m + 1..], opener, closers)
  }

  /** Text without the opener holds no match. */
  lemma {:induction false} FindAllSkip(t: string, r: string, opener: char, closers: set<char>)
    requires opener !in t
    ensures FindAll(t + r, opener, closers) == FindAll(r, opener, closers)
    decreases |t|
  {
    if t != [] {
      assert (t + r)[0] == t[0] && (t + r)[1..] == t[1..] + r;
      FindAllSkip(t[1..], r, opener, closers);
    } else {
      assert t + r == r;
    }
  }

  lemma {:induction false} LazyEndOf(t: string, g: string, c: char, r: string, k: nat, closers: set<char>)
    requires t == g + [c] + r && k < |g|
    requires '\n' !in g && c in closers
    requires forall j :: 1 <= j < |g| ==> g[j] !in closers
    ensures '\n' !in t[..k] && LazyEnd(t, k, closers) == Some(|g|)
    decreases |g| - k
  {
    assert t[..k] == g[..k];
    if k + 1 < |g| {
      LazyEndOf(t, g, c, r, k + 1, closers);
    }
  }

  /** The opener, a group free of newlines and of closers (but for its first character),
      and a closer: one match, whose group is exactly that text. */
  lemma FindAllMatch(g: string, c: char, r: string, opener: char, closers: set<char>)
    requires |g| >= 1 && '\n' !in g && c in closers
    requires forall j :: 1 <= j < |g| ==> g[j] !in closers
    ensures FindAll([opener] + g + [c] + r, opener, closers) == [g] + FindAll(r, opener, closers)
  {
    var s := [opener] + g + [c] + r;
    var t := g + [c] + r;
    assert s[1..] == t;
    LazyEndOf(t, g, c, r, 0, closers);
    assert t[..|g|] == g;
    assert t[|g| + 1..] == r;
  }

  // ---------------------------------------------------------------------------
  // tags_str_to_list
  // ---------------------------------------------------------------------------

  function HashtagsOf(groups: seq<string>): (tags: seq<string>)
    ensures |tags| == |groups|
  {
    if groups == [] then [] else ["#" + Lower(groups[0])] + HashtagsOf(groups[1..])
  }

  function MentionsOf(groups: seq<string>): (tags: seq<string>)
    requires forall k :: 0 <= k < |groups| ==> |groups[k]| >= 1
    ensures |tags| == |groups|
  {
    if groups == [] then [] else ["@" + groups[0][..|groups[0]| - 1]] + MentionsOf(groups[1..])
  }

  /** tags_str_to_list: "[]" is the empty list; otherwise every hashtag (lower-cased),
      then every mention (its last character dropped), each in order of appearance. */
  function TagsStrToList(s: string): (tags: seq<string>)
    ensures s == "[]" ==> tags == []
    ensures s != "[]" ==> |tags| == |FindAll(s, '#', {'\''})| + |FindAll(s, '@', {',', ']'})|
  {
    if s == "[]" then []
    else HashtagsOf(FindAll(s, '#', {'\''})) + MentionsOf(FindAll(s, '@', {',', ']'}))
  }

  /** The text of a collected tag: repr() copies it as it is, and it holds none of the
      characters the parser looks for. */
  predicate TagName(b: string)
  {
    PlainText(b) && '#' !in b && '@' !in b && ',' !in b && ']' !in b
  }

  /** A tag as get_video_tags collects it: a hashtag with a non-empty name, or a mention. */
  predicate CollectedTag(x: string)
  {
    |x| >= 1 && ((x[0] == '#' && |x| >= 2) || x[0] == '@') && TagName(x[1..])
  }

  predicate IsHashtag(x: string) { |x| >= 1 && x[0] == '#' }

  predicate IsMention(x: string) { |x| >= 1 && x[0] == '@' }

  /** The names of the hashtags, in order. */
  function HashNames(items: seq<string>): seq<string>
  {
    if items == [] then []
    else (if IsHashtag(items[0]) then [items[0][1..]] else []) + HashNames(items[1..])
  }

  /** The mentions, in order. */
  function Mentions(items: seq<string>): seq<string>
  {
    if items == [] then []
    else (if IsMention(items[0]) then [items[0]] else []) + Mentions(items[1..])
  }

  /** What the mention scan captures for each mention: its name and the closing quote. */
  function MentionGroups(items: seq<string>): (groups: seq<string>)
    ensures forall k :: 0 <= k < |groups| ==> |groups[k]| >= 1
  {
    if items == [] then []
    else (if IsMention(items[0]) then [items[0][1..] + "'"] else []) + MentionGroups(items[1..])
  }

  lemma CollectedIsPlain(x: string)
    requires CollectedTag(x)
    ensures PlainText(x) && '\n' !in x
  {
    forall i | 0 <= i < |x| ensures x[i] != '\'' && x[i] != '\\' && x[i] >= ' ' && x[i] as int != 0x7f {
      if i > 0 {
        assert x[i] == x[1..][i - 1];
      }
    }
  }

  /** The text repr() gives a list of collected tags, from the first item on, splits into
      the quoted first item and what follows it. */
  lemma ReprItemsFirst(items: seq<string>)
    requires |items| >= 1 && CollectedTag(items[0])
    ensures ReprItems(items) + "]" == "'" + items[0] + "'" + ReprTail(items)
  {
    var x := items[0];
    CollectedIsPlain(x);
    ReprStrOfPlain(x);
    ReprItemsUnfold(items);
  }

  lemma ReprItemsUnfold(items: seq<string>)
    requires |items| >= 1
    ensures ReprItems(items) + "]" == ReprStr(items[0]) + ReprTail(items)
  {
    if |items| == 1 {
      assert ReprItems(items) == ReprStr(items[0]);
    } else {
      ReprItemsCons(ReprStr(items[0]), ReprItems(items[1..]));
    }
  }

  lemma ReprItemsCons(q: string, w: string)
    ensures q + ", " + w + "]" == q + (", " + (w + "]"))
  {
  }

  lemma Regroup(a: string, b: string, c: string)
    ensures a + b + c == a + (b + c)
  {
  }

  /** The hashtag scan over one quoted item finds its name if it is a hashtag. */
  lemma HashItem(x: string, tail: string)
    requires CollectedTag(x)
    ensures FindAll("'" + x + "'" + tail, '#', {'\''}) ==
              (if IsHashtag(x) then [x[1..]] else []) + FindAll(tail, '#', {'\''})
  {
    var closers := {'\''};
    CollectedIsPlain(x);
    assert "'" + x + "'" + tail == "'" + (x + "'" + tail);
    FindAllSkip("'", x + "'" + tail, '#', closers);
    if IsHashtag(x) {
      var b := x[1..];
      assert x + "'" + tail == ['#'] + b + ['\''] + tail;
      FindAllMatch(b, '\'', tail, '#', closers);
    } else {
      assert '#' !in x + "'";
      FindAllSkip(x + "'", tail, '#', closers);
    }
  }

  /** The mention scan over one quoted item and the comma or bracket after it finds the
      item's name and closing quote if it is a mention. */
  lemma MentionItem(x: string, c: char, after: string)
    requires CollectedTag(x) && (c == ',' || c == ']')
    ensures FindAll("'" + x + "'" + [c] + after, '@', {',', ']'}) ==
              (if IsMention(x) then [x[1..] + "'"] else []) + FindAll(after, '@', {',', ']'})
  {
    var closers := {',', ']'};
    CollectedIsPlain(x);
    assert "'" + x + "'" + [c] + after == "'" + (x + "'" + [c] + after);
    FindAllSkip("'", x + "'" + [c] + after, '@', closers);
    if IsMention(x) {
      var g := x[1..] + "'";
      assert x + "'" + [c] + after == ['@'] + g + [c] + after;
      FindAllMatch(g, c, after, '@', closers);
    } else {
      assert '@' !in x + "'" + [c];
      FindAllSkip(x + "'" + [c], after, '@', closers);
    }
  }

  /** What follows the first item of a listed str(): "]" alone, or ", " and the rest. */
  function ReprTail(items: seq<string>): string
    requires |items| >= 1
  {
    if |items| == 1 then "]" else ", " + (ReprItems(items[1..]) + "]")
  }

  /** The hashtag scan finds nothing after the first item but what it finds in the rest. */
  lemma HashScanTail(items: seq<string>)
    requires |items| >= 1
    requires |items| >= 2 ==> FindAll(ReprItems(items[1..]) + "]", '#', {'\''}) == HashNames(items[1..])
    ensures FindAll(ReprTail(items), '#', {'\''}) == HashNames(items[1..])
  {
    if |items| == 1 {
      FindAllSkip("]", [], '#', {'\''});
      assert "]" + [] == "]";
    } else {
      FindAllSkip(", ", ReprItems(items[1..]) + "]", '#', {'\''});
    }
  }

  /** One step of the hashtag scan: the first item's name, if it is a hashtag, then what
      the scan finds in the rest. */
  lemma HashScanStep(items: seq<string>)
    requires |items| >= 1 && CollectedTag(items[0])
    requires |items| >= 2 ==> FindAll(ReprItems(items[1..]) + "]", '#', {'\''}) == HashNames(items[1..])
    ensures FindAll(ReprItems(items) + "]", '#', {'\''}) == HashNames(items)
  {
    var x := items[0];
    ReprItemsFirst(items);
    assert ReprItems(items) + "]" == "'" + x + "'" + ReprTail(items);
    HashItem(x, ReprTail(items));
    HashScanTail(items);
  }

  /** The hashtag scan of the listed tags finds the names of the hashtags. */
  lemma {:induction false} HashScan(items: seq<string>)
    requires |items| >= 1 && forall k :: 0 <= k < |items| ==> CollectedTag(items[k])
    ensures FindAll(ReprItems(items) + "]", '#', {'\''}) == HashNames(items)
    decreases |items|
  {
    if |items| >= 2 {
      HashScan(items[1..]);
    }
    HashScanStep(items);
  }

  /** The mention scan finds nothing after the first item's closing comma or bracket but
      what it finds in the rest. */
  lemma MentionScanTail(items: seq<string>)
    requires |items| >= 1
    requires |items| >= 2 ==> FindAll(ReprItems(items[1..]) + "]", '@', {',', ']'}) == MentionGroups(items[1..])
    ensures FindAll(ReprTail(items)[1..], '@', {',', ']'}) == MentionGroups(items[1..])
  {
    if |items| >= 2 {
      assert ReprTail(items)[1..] == " " + (ReprItems(items[1..]) + "]");
      FindAllSkip(" ", ReprItems(items[1..]) + "]", '@', {',', ']'});
    }
  }

  /** One step of the mention scan: the first item's name and closing quote, if it is a
      mention, then what the scan finds in the rest. */
  lemma MentionScanStep(items: seq<string>)
    requires |items| >= 1 && CollectedTag(items[0])
    requires |items| >= 2 ==> FindAll(ReprItems(items[1..]) + "]", '@', {',', ']'}) == MentionGroups(items[1..])
    ensures FindAll(ReprItems(items) + "]", '@', {',', ']'}) == MentionGroups(items)
  {
    var x, tail := items[0], ReprTail(items);
    ReprItemsFirst(items);
    assert tail == [tail[0]] + tail[1..];
    assert ReprItems(items) + "]" == "'" + x + "'" + [tail[0]] + tail[1..];
    MentionItem(x, tail[0], tail[1..]);
    MentionScanTail(items);
  }

  /** The mention scan of the listed tags finds each mention's name with its closing quote. */
  lemma {:induction false} MentionScan(items: seq<string>)
    requires |items| >= 1 && forall k :: 0 <= k < |items| ==> CollectedTag(items[k])
    ensures FindAll(ReprItems(items) + "]", '@', {',', ']'}) == MentionGroups(items)
    decreases |items|
  {
    if |items| >= 2 {
      MentionScan(items[1..]);
    }
    MentionScanStep(items);
  }

  /** The mention the first item gives back from its captured group. */
  lemma MentionsOfGroupsStep(items: seq<string>)
    requires |items| >= 1 && CollectedTag(items[0])
    requires MentionsOf(MentionGroups(items[1..])) == Mentions(items[1..])
    ensures MentionsOf(MentionGroups(items)) == Mentions(items)
  {
    var x := items[0];
    if IsMention(x) {
      var g := x[1..] + "'";
      assert g[..|g| - 1] == x[1..];
      assert "@" + x[1..] == x;
      assert MentionGroups(items) == [g] + MentionGroups(items[1..]);
      assert MentionsOf([g] + MentionGroups(items[1..])) == ["@" + g[..|g| - 1]] + MentionsOf(MentionGroups(items[1..]));
      assert Mentions(items) == [x] + Mentions(items[1..]);
    } else {
      assert MentionGroups(items) == MentionGroups(items[1..]);
      assert Mentions(items) == Mentions(items[1..]);
    }
  }

  lemma {:induction false} MentionsOfGroups(items: seq<string>)
    requires forall k :: 0 <= k < |items| ==> CollectedTag(items[k])
    ensures MentionsOf(MentionGroups(items)) == Mentions(items)
    decreases |items|
  {
    if items != [] {
      MentionsOfGroups(items[1..]);
      MentionsOfGroupsStep(items);
    }
  }

  /** str() of a non-empty list of collected tags is "[" and the quoted items. */
  lemma ReprListShape(items: seq<string>)
    requires |items| >= 1
    ensures ReprList(items) == "[" + (ReprItems(items) + "]")
    ensures ReprList(items) != "[]"
  {
    assert ReprList(items) == "[" + (ReprItems(items) + "]") by {
      Regroup("[", ReprItems(items), "]");
    }
    assert |ReprItems(items)| >= 2 by {
      if |items| == 1 {
        assert ReprItems(items) == ReprStr(items[0]);
      } else {
        assert ReprItems(items) == ReprStr(items[0]) + ", " + ReprItems(items[1..]);
      }
    }
  }

  /** The hashtag scan over str() of the listed tags finds the names of the hashtags. */
  lemma HashListScan(items: seq<string>)
    requires |items| >= 1 && forall k :: 0 <= k < |items| ==> CollectedTag(items[k])
    ensures FindAll(ReprList(items), '#', {'\''}) == HashNames(items)
  {
    ReprListShape(items);
    FindAllSkip("[", ReprItems(items) + "]", '#', {'\''});
    HashScan(items);
  }

  /** The mention scan over str() of the listed tags finds each mention's name and quote. */
  lemma MentionListScan(items: seq<string>)
    requires |items| >= 1 && forall k :: 0 <= k < |items| ==> CollectedTag(items[k])
    ensures FindAll(ReprList(items), '@', {',', ']'}) == MentionGroups(items)
  {
    ReprListShape(items);
    FindAllSkip("[", ReprItems(items) + "]", '@', {',', ']'});
    MentionScan(items);
  }

  /** tags_str_to_list reads back the text str() gave a list of collected tags: first the
      hashtags, lower-cased, then the mentions as they were, each group in list order. */
  lemma TagsStrToListOfRepr(items: seq<string>)
    requires forall k :: 0 <= k < |items| ==> CollectedTag(items[k])
    ensures TagsStrToList(ReprList(items)) == HashtagsOf(HashNames(items)) + Mentions(items)
  {
    if items == [] {
      assert ReprList(items) == "[]";
    } else {
      ReprListShape(items);
      HashListScan(items);
      MentionListScan(items);
      MentionsOfGroups(items);
    }
  }

  // ---------------------------------------------------------------------------
  // remove_emojis
  // ---------------------------------------------------------------------------

  /** The code-point ranges of the character class remove_emojis deletes, as listed
      (one range twice); a single code point is a range of one. */
  const EmojiRanges: seq<(int, int)> := [
    (0x1F600, 0x1F64F), // emoticons
    (0x1F300, 0x1F5FF), // symbols and pictographs
    (0x1F680, 0x1F6FF), // transport and map symbols
    (0x1F1E0, 0x1F1FF), // flags
    (0x2500, 0x2BEF),
    (0x2702, 0x27B0),
    (0x2702, 0x27B0),
    (0x24C2, 0x1F251),
    (0x1F926, 0x1F937),
    (0x10000, 0x10FFFF),
    (0x2640, 0x2642),
    (0x2600, 0x2B55),
    (0x200D, 0x200D),
    (0x23CF, 0x23CF),
    (0x23E9, 0x23E9),
    (0x231A, 0x231A),
    (0xFE0F, 0xFE0F),
    (0x3030, 0x3030)
  ]

  predicate InRange(c: char, k: int)
    requires 0 <= k < |EmojiRanges|
  {
    EmojiRanges[k].0 <= c as int <= EmojiRanges[k].1
  }

  predicate IsEmoji(c: char)
  {
    exists k :: 0 <= k < |EmojiRanges| && InRange(c, k)
  }

  /** The listed ranges overlap so much that the class is four code points and everything
      from U+24C2 up: CJK ideographs, kana and Hangul are deleted along with the emoji. */
  lemma EmojiClass(c: char)
    ensures IsEmoji(c) <==> c as int in {0x200D, 0x231A, 0x23CF, 0x23E9} || c as int >= 0x24C2
  {
    if c as int >= 0x24C2 {
      if c as int <= 0x1F251 {
        assert InRange(c, 7);
      } else {
        assert InRange(c, 9);
      }
    } else if c as int == 0x200D {
      assert InRange(c, 12);
    } else if c as int == 0x23CF {
      assert InRange(c, 13);
    } else if c as int == 0x23E9 {
      assert InRange(c, 14);
    } else if c as int == 0x231A {
      assert InRange(c, 15);
    }
  }

  /** remove_emojis: every character of the class deleted, every other one kept in order. */
  function RemoveEmojis(s: string): (r: string)
    ensures |r| <= |s|
    ensures forall i :: 0 <= i < |r| ==> !IsEmoji(r[i])
    ensures forall c :: c in r <==> c in s && !IsEmoji(c)
  {
    if s == [] then []
    else
      var rest := RemoveEmojis(s[1..]);
      assert forall c :: c in s <==> c == s[0] || c in s[1..];
      if IsEmoji(s[0]) then rest else [s[0]] + rest
  }

  lemma {:induction false} RemoveEmojisAppend(a: string, b: string)
    ensures RemoveEmojis(a + b) == RemoveEmojis(a) + RemoveEmojis(b)
    decreases |a|
  {
    if a == [] {
      assert a + b == b;
    } else {
      assert (a + b)[0] == a[0] && (a + b)[1..] == a[1..] + b;
      RemoveEmojisAppend(a[1..], b);
    }
  }

  /** Text without emoji comes through unchanged. */
  lemma {:induction false} RemoveEmojisKeepsPlain(s: string)
    requires forall i :: 0 <= i < |s| ==> !IsEmoji(s[i])
    ensures RemoveEmojis(s) == s
    decreases |s|
  {
    if s != [] {
      RemoveEmojisKeepsPlain(s[1..]);
      assert [s[0]] + s[1..] == s;
    }
  }

  lemma RemoveEmojisIdempotent(s: string)
    ensures RemoveEmojis(RemoveEmojis(s)) == RemoveEmojis(s)
  {
    RemoveEmojisKeepsPlain(RemoveEmojis(s));
  }

  /** "ok" followed by a thumbs-up and a CJK ideograph loses both. */
  lemma RemoveEmojisExample()
    ensures RemoveEmojis("ok\U{1F44D}\U{4E2D}") == "ok"
  {
    var s := "ok\U{1F44D}\U{4E2D}";
    EmojiClass('o');
    EmojiClass('k');
    EmojiClass(s[2]);
    EmojiClass(s[3]);
    assert s == "ok" + [s[2], s[3]];
    RemoveEmojisAppend("ok", [s[2], s[3]]);
    RemoveEmojisKeepsPlain("ok");
  }

  // ---------------------------------------------------------------------------
  // common_filter_rules
  // ---------------------------------------------------------------------------

  /** The states of an automaton for (f+y+p*)+: nothing read, inside a run of f, of y, of p. */
  datatype FypState = Start | InF | InY | InP

  function FypStep(q: FypState, c: char): Option<FypState>
  {
    match q
    case Start => if c == 'f' then Some(InF) else None
    case InF => if c == 'f' then Some(InF) else if c == 'y' then Some(InY) else None
    case InY => if c == 'y' then Some(InY) else if c == 'p' then Some(InP) else if c == 'f' then Some(InF) else None
    case InP => if c == 'p' then Some(InP) else if c == 'f' then Some(InF) else None
  }

  predicate FypAccepts(q: FypState, w: string)
    decreases |w|
  {
    if w == [] then q == InY || q == InP
    else match FypStep(q, w[0])
      case None => false
      case Some(q') => FypAccepts(q', w[1..])
  }

  /** w is matched by (f+y+p*)+. */
  predicate FypWord(w: string) { FypAccepts(Start, w) }

  /** w is matched by vira+l. */
  predicate ViralWord(w: string)
  {
    |w| >= 5 && w[..3] == "vir" && w[|w| - 1] == 'l' && forall k :: 3 <= k < |w| - 1 ==> w[k] == 'a'
  }

  /** w is matched by (f+y+p*)+|(fory)|(vira+l). */
  predicate CommonWord(w: string)
  {
    FypWord(w) || w == "fory" || ViralWord(w)
  }

  /** findall finds at least one match: some stretch of t is matched by the pattern
      (no alternative matches the empty text). */
  predicate PatternFound(t: string)
  {
    exists i, j :: 0 <= i <= j <= |t| && CommonWord(t[i..j])
  }

  /** common_filter_rules: keep the tag when the pattern matches nowhere in its
      lower-cased text. */
  function CommonFilterRules(tag: string): bool
  {
    !PatternFound(Lower(tag))
  }

  lemma {:induction false} InFHasFy(w: string)
    requires FypAccepts(InF, w)
    ensures exists k :: OccursAt(['f'] + w, "fy", k)
    decreases |w|
  {
    assert w != [];
    if w[0] == 'y' {
      assert (['f'] + w)[0..2] == "fy";
      assert OccursAt(['f'] + w, "fy", 0);
    } else {
      assert w[0] == 'f';
      InFHasFy(w[1..]);
      var k :| OccursAt(['f'] + w[1..], "fy", k);
      assert ['f'] + w == ['f'] + (['f'] + w[1..]);
      assert (['f'] + w)[k + 1..k + 3] == (['f'] + w[1..])[k..k + 2];
      assert OccursAt(['f'] + w, "fy", k + 1);
    }
  }

  /** Every word of (f+y+p*)+ holds "fy". */
  lemma FypWordHasFy(w: string)
    requires FypWord(w)
    ensures exists k :: OccursAt(w, "fy", k)
  {
    assert w != [] && w[0] == 'f';
    InFHasFy(w[1..]);
    assert ['f'] + w[1..] == w;
  }

  lemma OccursInSlice(t: string, i: int, j: int, sub: string, k: int)
    requires 0 <= i <= j <= |t| && OccursAt(t[i..j], sub, k)
    ensures OccursAt(t, sub, i + k)
  {
    forall m | 0 <= m < |sub|
      ensures t[i + k + m] == sub[m]
    {
      assert t[i..j][k..k + |sub|][m] == t[i..j][k + m];
    }
    assert t[i + k..i + k + |sub|] == sub;
  }

  /** The pattern is found exactly when the text holds "fy", or "fory", or "vir", one or
      more 'a' and an 'l': the repetitions in (f+y+p*)+ add nothing. */
  lemma PatternFoundIff(t: string)
    ensures PatternFound(t) <==>
              Contains(t, "fy") || Contains(t, "fory") || exists i, j :: 0 <= i <= j <= |t| && ViralWord(t[i..j])
  {
    ContainsIffOccurs(t, "fy");
    ContainsIffOccurs(t, "fory");
    if PatternFound(t) {
      var i, j :| 0 <= i <= j <= |t| && CommonWord(t[i..j]);
      if FypWord(t[i..j]) {
        FypWordHasFy(t[i..j]);
        var k :| OccursAt(t[i..j], "fy", k);
        OccursInSlice(t, i, j, "fy", k);
      } else if t[i..j] == "fory" {
        assert OccursAt(t, "fory", i);
      }
    }
    if Contains(t, "fy") {
      var i :| OccursAt(t, "fy", i);
      assert FypAccepts(InY, []);
      assert t[i..i + 2] == "fy";
      assert FypWord(t[i..i + 2]);
    } else if Contains(t, "fory") {
      var i :| OccursAt(t, "fory", i);
      assert CommonWord(t[i..i + 4]);
    }
  }

  /** common_filter_rules drops a tag exactly when its lower-cased text holds "fy", "fory"
      or a "vir", 'a'... 'l' run. */
  lemma CommonFilterRulesIff(tag: string)
    ensures !CommonFilterRules(tag) <==>
              var t := Lower(tag);
              Contains(t, "fy") || Contains(t, "fory") || exists i, j :: 0 <= i <= j <= |t| && ViralWord(t[i..j])
  {
    PatternFoundIff(Lower(tag));
  }

  /** A tag whose lower-cased text has no 'f' and no 'v' is always kept. */
  lemma KeptWithoutFOrV(tag: string)
    requires 'f' !in Lower(tag) && 'v' !in Lower(tag)
    ensures CommonFilterRules(tag)
  {
    var t := Lower(tag);
    forall i, j | 0 <= i <= j <= |t|
      ensures !CommonWord(t[i..j])
    {
      if i < j {
        assert t[i..j][0] == t[i] && t[i] in t;
      }
    }
  }

  /** A tag is dropped as soon as one stretch of its lower-cased text is a common word. */
  lemma DroppedAt(tag: string, i: int, j: int)
    requires 0 <= i <= j <= |tag| && CommonWord(Lower(tag)[i..j])
    ensures !CommonFilterRules(tag)
  {
  }

  /** "#FYP" is dropped: "fy" is a word of (f+y+p*)+. */
  lemma FypTagDropped()
    ensures !CommonFilterRules("#FYP")
  {
    assert Lower("#FYP")[1..3] == "fy" by { assert Lower("#FYP") == "#fyp"; }
    assert FypWord("fy") by {
      assert FypAccepts(InY, []);
      assert "fy"[1..] == "y" && "y"[1..] == [];
    }
    DroppedAt("#FYP", 1, 3);
  }

  /** "#ForYou" is dropped: it holds "fory". */
  lemma ForYouTagDropped()
    ensures !CommonFilterRules("#ForYou")
  {
    assert Lower("#ForYou")[1..5] == "fory" by { assert Lower("#ForYou") == "#foryou"; }
    DroppedAt("#ForYou", 1, 5);
  }

  /** "#Viraaal" is dropped: it is a word of vira+l after the '#'. */
  lemma ViralTagDropped()
    ensures !CommonFilterRules("#Viraaal")
  {
    assert Lower("#Viraaal")[1..8] == "viraaal" by { assert Lower("#Viraaal") == "#viraaal"; }
    assert ViralWord("viraaal");
    DroppedAt("#Viraaal", 1, 8);
  }

  /** "#cats" is kept. */
  lemma CatsTagKept()
    ensures CommonFilterRules("#cats")
  {
    assert Lower("#cats") == "#cats";
    KeptWithoutFOrV("#cats");
  }

  // ---------------------------------------------------------------------------
  // prep_vidinfo
  // ---------------------------------------------------------------------------

  /** A row of a table of VideoInfo records read back from CSV: its v_id, its tags cell
      and the other columns, in order. */
  datatype Row = Row(vid: Value, tags: Value, others: seq<Value>)

  function Ids(rows: seq<Row>): set<Value>
  {
    set k | 0 <= k < |rows| :: rows[k].vid
  }

  lemma IdsCons(r: Row, rows: seq<Row>)
    ensures Ids([r] + rows) == {r.vid} + Ids(rows)
  {
    var all := [r] + rows;
    assert all[0] == r;
    forall v | v in Ids(rows)
      ensures v in Ids(all)
    {
      var k :| 0 <= k < |rows| && rows[k].vid == v;
      assert all[k + 1] == rows[k];
    }
    forall v | v in Ids(all) && v != r.vid
      ensures v in Ids(rows)
    {
      var k :| 0 <= k < |all| && all[k].vid == v;
      assert all[k] == rows[k - 1];
    }
  }

  /** Row k is the first row with its v_id. */
  predicate FirstOfId(rows: seq<Row>, k: int)
    requires 0 <= k < |rows|
  {
    forall m :: 0 <= m < k ==> rows[m].vid != rows[k].vid
  }

  /** drop_duplicates(subset=["v_id"], keep="first") on the rows after those whose ids
      are in `seen`. */
  function DedupFrom(rows: seq<Row>, seen: set<Value>): (kept: seq<Row>)
    decreases |rows|
  {
    if rows == [] then []
    else if rows[0].vid in seen then DedupFrom(rows[1..], seen)
    else [rows[0]] + DedupFrom(rows[1..], seen + {rows[0].vid})
  }

  /** Only rows of the table whose ids were not seen are kept, and every such id
      survives. */
  lemma {:induction false} DedupFromFacts(rows: seq<Row>, seen: set<Value>)
    ensures forall k :: 0 <= k < |DedupFrom(rows, seen)| ==>
      DedupFrom(rows, seen)[k] in rows && DedupFrom(rows, seen)[k].vid !in seen
    ensures Ids(DedupFrom(rows, seen)) == Ids(rows) - seen
    decreases |rows|
  {
    if rows != [] {
      assert [rows[0]] + rows[1..] == rows;
      IdsCons(rows[0], rows[1..]);
      if rows[0].vid in seen {
        DedupFromFacts(rows[1..], seen);
        assert Ids(rows) - seen == Ids(rows[1..]) - seen;
      } else {
        var rest := DedupFrom(rows[1..], seen + {rows[0].vid});
        DedupFromFacts(rows[1..], seen + {rows[0].vid});
        IdsCons(rows[0], rest);
        var kept := [rows[0]] + rest;
        forall k | 0 <= k < |kept| ensures kept[k] in rows && kept[k].vid !in seen {
          if k > 0 { assert kept[k] == rest[k - 1]; }
        }
      }
    }
  }

  /** drop_duplicates(subset=["v_id"], keep="first"): only the first row of each id is
      kept, in the original order; every id survives. */
  function DedupKeepFirst(rows: seq<Row>): (kept: seq<Row>)
    ensures |kept| <= |rows|
    ensures forall k :: 0 <= k < |kept| ==> kept[k] in rows
    ensures Ids(kept) == Ids(rows)
  {
    DedupLength(rows, {});
    DedupFromFacts(rows, {});
    DedupFrom(rows, {})
  }

  lemma {:induction false} DedupLength(rows: seq<Row>, seen: set<Value>)
    ensures |DedupFrom(rows, seen)| <= |rows|
    decreases |rows|
  {
    if rows != [] {
      DedupLength(rows[1..], seen);
      DedupLength(rows[1..], seen + {rows[0].vid});
    }
  }

  predicate DistinctIds(rows: seq<Row>)
  {
    forall a, b :: 0 <= a < b < |rows| ==> rows[a].vid != rows[b].vid
  }

  lemma {:induction false} DedupFromDistinct(rows: seq<Row>, seen: set<Value>)
    ensures DistinctIds(DedupFrom(rows, seen))
    decreases |rows|
  {
    if rows != [] && rows[0].vid !in seen {
      var rest := DedupFrom(rows[1..], seen + {rows[0].vid});
      DedupFromDistinct(rows[1..], seen + {rows[0].vid});
      DedupFromFacts(rows[1..], seen + {rows[0].vid});
      var kept := [rows[0]] + rest;
      forall a, b | 0 <= a < b < |kept|
        ensures kept[a].vid != kept[b].vid
      {
        assert kept[b] == rest[b - 1];
        if a > 0 {
          assert kept[a] == rest[a - 1];
        }
      }
    } else if rows != [] {
      DedupFromDistinct(rows[1..], seen);
    }
  }

  /** The result of prep_vidinfo's deduplication has unique v_ids. */
  lemma DedupDistinct(rows: seq<Row>)
    ensures DistinctIds(DedupKeepFirst(rows))
  {
    DedupFromDistinct(rows, {});
  }

  lemma {:induction false} DedupFromOfDistinct(rows: seq<Row>, seen: set<Value>)
    requires DistinctIds(rows) && Ids(rows) !! seen
    ensures DedupFrom(rows, seen) == rows
    decreases |rows|
  {
    if rows != [] {
      assert rows[0].vid in Ids(rows);
      forall k | 0 <= k < |rows[1..]|
        ensures rows[1..][k].vid !in seen + {rows[0].vid}
      {
        assert rows[1..][k] == rows[k + 1];
        assert rows[k + 1].vid in Ids(rows);
      }
      assert Ids(rows[1..]) !! seen + {rows[0].vid};
      DedupFromOfDistinct(rows[1..], seen + {rows[0].vid});
      assert [rows[0]] + rows[1..] == rows;
    }
  }

  /** Rows with unique ids pass through unchanged, so deduplicating twice is deduplicating once. */
  lemma DedupOfDistinct(rows: seq<Row>)
    requires DistinctIds(rows)
    ensures DedupKeepFirst(rows) == rows
  {
    DedupFromOfDistinct(rows, {});
  }

  lemma DedupIdempotent(rows: seq<Row>)
    ensures DedupKeepFirst(DedupKeepFirst(rows)) == DedupKeepFirst(rows)
  {
    DedupDistinct(rows);
    DedupOfDistinct(DedupKeepFirst(rows));
  }

  /** Deduplication of a concatenation: the second part loses the ids the first part has. */
  /** The ids seen once a row has been looked at. */
  function SeenAfter(r: Row, seen: set<Value>): set<Value>
  {
    if r.vid in seen then seen else seen + {r.vid}
  }

  /** The first row is kept unless its id was seen. */
  lemma DedupFromUnfold(rows: seq<Row>, seen: set<Value>)
    requires rows != []
    ensures DedupFrom(rows, seen) ==
              (if rows[0].vid in seen then [] else [rows[0]]) + DedupFrom(rows[1..], SeenAfter(rows[0], seen))
  {
  }

  lemma {:induction false} DedupFromAppend(a: seq<Row>, b: seq<Row>, seen: set<Value>)
    ensures DedupFrom(a + b, seen) == DedupFrom(a, seen) + DedupFrom(b, seen + Ids(a))
    decreases |a|
  {
    if a == [] {
      assert a + b == b;
      assert Ids(a) == {};
      assert seen + Ids(a) == seen;
    } else {
      var head := if a[0].vid in seen then [] else [a[0]];
      var seen' := SeenAfter(a[0], seen);
      assert (a + b)[0] == a[0] && (a + b)[1..] == a[1..] + b;
      DedupFromUnfold(a + b, seen);
      DedupFromUnfold(a, seen);
      DedupFromAppend(a[1..], b, seen');
      assert [a[0]] + a[1..] == a;
      IdsCons(a[0], a[1..]);
      assert seen' + Ids(a[1..]) == seen + Ids(a);
      var x, y := DedupFrom(a[1..], seen'), DedupFrom(b, seen + Ids(a));
      assert head + (x + y) == (head + x) + y;
    }
  }

  /** A row is kept exactly when no earlier row has its id: appending one row to a table
      keeps it iff its id is new. This pins down which row of each id survives, and in
      what order. */
  lemma DedupSnoc(rows: seq<Row>, r: Row)
    ensures r.vid in Ids(rows) ==> DedupKeepFirst(rows + [r]) == DedupKeepFirst(rows)
    ensures r.vid !in Ids(rows) ==> DedupKeepFirst(rows + [r]) == DedupKeepFirst(rows) + [r]
  {
    DedupFromAppend(rows, [r], {});
    assert {} + Ids(rows) == Ids(rows);
    assert DedupFrom([r], Ids(rows)) == (if r.vid in Ids(rows) then [] else [r]) by {
      assert [r][1..] == [];
    }
  }

  /** The rows that come first with their v_id, in table order: an independent statement
      of keep="first". */
  function FirstRows(rows: seq<Row>): seq<Row>
    decreases |rows|
  {
    if rows == [] then []
    else FirstRows(rows[..|rows| - 1]) + (if FirstOfId(rows, |rows| - 1) then [rows[|rows| - 1]] else [])
  }

  lemma {:induction false} DedupIsFirstRows(rows: seq<Row>)
    ensures DedupKeepFirst(rows) == FirstRows(rows)
    decreases |rows|
  {
    if rows != [] {
      var front, r := rows[..|rows| - 1], rows[|rows| - 1];
      assert front + [r] == rows;
      DedupIsFirstRows(front);
      DedupSnoc(front, r);
      if r.vid in Ids(front) {
        var m :| 0 <= m < |front| && front[m].vid == r.vid;
        assert rows[m] == front[m];
      } else {
        forall m | 0 <= m < |front|
          ensures rows[m].vid != r.vid
        {
          assert rows[m] == front[m];
        }
      }
    }
  }

  /** The row with its tags cell replaced by the parsed list. */
  function WithParsedTags(row: Row): Row
    requires row.tags.Str?
  {
    row.(tags := StrList(TagsStrToList(row.tags.s)))
  }

  /** Series.apply(tags_str_to_list) over the tags column: every cell must be a string (an
      empty cell, read back as NaN, makes the regex search raise TypeError); on success
      each row gets its parsed list and keeps its other columns. */
  function ParseTagsColumn(rows: seq<Row>): (r: Result<seq<Row>>)
    ensures r.Err? ==> r.error == TypeError
    ensures r.Ok? ==> |r.value| == |rows|
    decreases |rows|
  {
    if rows == [] then Ok([])
    else if !rows[0].tags.Str? then Err(TypeError)
    else match ParseTagsColumn(rows[1..])
      case Err(e) => Err(e)
      case Ok(rest) => Ok([WithParsedTags(rows[0])] + rest)
  }

  /** Parsing fails exactly when some tags cell is not a string; otherwise it gives
      every row, in order, with its parsed tags. */
  lemma {:induction false} ParseTagsColumnFacts(rows: seq<Row>)
    ensures ParseTagsColumn(rows).Ok? <==> forall k :: 0 <= k < |rows| ==> rows[k].tags.Str?
    ensures ParseTagsColumn(rows).Ok? ==> |ParseTagsColumn(rows).value| == |rows|
    ensures ParseTagsColumn(rows).Ok? ==>
              forall k :: 0 <= k < |rows| ==> ParseTagsColumn(rows).value[k] == WithParsedTags(rows[k])
    decreases |rows|
  {
    if rows != [] && rows[0].tags.Str? {
      ParseTagsColumnFacts(rows[1..]);
      assert forall k :: 0 < k < |rows| ==> rows[k] == rows[1..][k - 1];
      var rest := ParseTagsColumn(rows[1..]);
      if rest.Ok? {
        var out := [WithParsedTags(rows[0])] + rest.value;
        assert ParseTagsColumn(rows) == Ok(out);
        forall k | 0 <= k < |rows| ensures out[k] == WithParsedTags(rows[k]) {
          if k > 0 { assert out[k] == rest.value[k - 1]; }
        }
      } else {
        var j :| 0 <= j < |rows[1..]| && !rows[1..][j].tags.Str?;
        assert !rows[j + 1].tags.Str?;
      }
    }
  }

  /** prep_vidinfo as a value: duplicates dropped (first row of each v_id kept), then the
      tags column parsed. */
  function Prepped(df: seq<Row>): Result<seq<Row>>
  {
    ParseTagsColumn(DedupKeepFirst(df))
  }

  /** Series.apply(tags_str_to_list) on the tags column: a new column of parsed lists,
      or TypeError at the first cell that is not a string. */
  method ApplyTagsStrToList(rows: seq<Row>) returns (r: Result<array<Value>>)
    ensures r.Ok? <==> forall k :: 0 <= k < |rows| ==> rows[k].tags.Str?
    ensures r.Err? ==> r.error == TypeError
    ensures r.Ok? ==> fresh(r.value) && r.value.Length == |rows|
    ensures r.Ok? ==> forall k :: 0 <= k < |rows| ==> rows[k].tags.Str? && r.value[k] == WithParsedTags(rows[k]).tags
  {
    var column := new Value[|rows|];
    var k := 0;
    while k < |rows|
      invariant 0 <= k <= |rows|
      invariant forall m :: 0 <= m < k ==> rows[m].tags.Str? && column[m] == WithParsedTags(rows[m]).tags
    {
      if !rows[k].tags.Str? {
        return Err(TypeError);
      }
      column[k] := StrList(TagsStrToList(rows[k].tags.s));
      k := k + 1;
    }
    r := Ok(column);
  }

  /** prep_vidinfo: the deduplicated table, its tags column computed by apply and then
      assigned over the old one in place. */
  method PrepVidInfo(df: seq<Row>) returns (r: Result<seq<Row>>)
    ensures r == Prepped(df)
  {
    var kept := DedupKeepFirst(df);
    var n := |kept|;
    var parsed := ApplyTagsStrToList(kept);
    if parsed.Err? {
      ParseTagsColumnFacts(kept);
      return Err(TypeError);
    }
    var column := parsed.value;
    var data := new Row[n](i requires 0 <= i < n => kept[i]);
    var k := 0;
    while k < n
      invariant 0 <= k <= n
      invariant forall m :: 0 <= m < n ==> kept[m].tags.Str? && column[m] == WithParsedTags(kept[m]).tags
      invariant forall m :: 0 <= m < k ==> data[m] == WithParsedTags(kept[m])
      invariant forall m :: k <= m < n ==> data[m] == kept[m]
    {
      data[k] := data[k].(tags := column[k]);
      k := k + 1;
    }
    ParseTagsColumnOf(kept, data[..]);
    r := Ok(data[..]);
  }

  /** Rows that each got their parsed tags are what parsing the tags column gives. */
  lemma ParseTagsColumnOf(rows: seq<Row>, out: seq<Row>)
    requires |out| == |rows|
    requires forall k :: 0 <= k < |rows| ==> rows[k].tags.Str? && out[k] == WithParsedTags(rows[k])
    ensures ParseTagsColumn(rows) == Ok(out)
  {
    ParseTagsColumnFacts(rows);
    var parsed := ParseTagsColumn(rows);
    assert parsed.Ok?;
    assert forall k :: 0 <= k < |out| ==> parsed.value[k] == out[k];
    assert parsed.value == out;
  }

  /** A prepared table has unique v_ids, the ids of the raw table, and rows that differ
      from the kept raw rows (the first of each id, DedupIsFirstRows) only in the tags
      cell, which holds the parsed list. */
  lemma PreppedTable(df: seq<Row>)
    ensures Prepped(df).Ok? <==> forall k :: 0 <= k < |DedupKeepFirst(df)| ==> DedupKeepFirst(df)[k].tags.Str?
    ensures Prepped(df).Ok? ==> DistinctIds(Prepped(df).value) && Ids(Prepped(df).value) == Ids(df)
    ensures Prepped(df).Ok? ==> forall k :: 0 <= k < |Prepped(df).value| ==>
              var row := Prepped(df).value[k];
              var raw := DedupKeepFirst(df)[k];
              raw == row.(tags := raw.tags) && row.tags == StrList(TagsStrToList(raw.tags.s))
  {
    var kept := DedupKeepFirst(df);
    DedupDistinct(df);
    ParseTagsColumnFacts(kept);
    var r := Prepped(df);
    if r.Ok? {
      var out := r.value;
      forall a, b | 0 <= a < b < |out|
        ensures out[a].vid != out[b].vid
      {
        assert out[a].vid == kept[a].vid && out[b].vid == kept[b].vid;
      }
      forall v | v in Ids(out)
        ensures v in Ids(kept)
      {
        var k :| 0 <= k < |out| && out[k].vid == v;
        assert kept[k].vid == v;
      }
      forall v | v in Ids(kept)
        ensures v in Ids(out)
      {
        var k :| 0 <= k < |kept| && kept[k].vid == v;
        assert out[k].vid == v;
      }
    }
  }
}
