/** The tag handling of the quick logger: the comma-separated tag string a
    log row stores, the tag list a log carries, and the mapping between a
    log and its row. Creation dates (chrono, RFC 3339) and the SQLite
    storage are not modelled; a log here is its text and its tags. */
module QuickLogger {
  import opened Wrappers

  // ------------------------------------------------------ split and join

  /** `slice::join(",")`: the elements one after the other with a single
      comma between neighbours, so a list of comma-free elements loses
      nothing but gains exactly `|t| - 1` commas. */
  function Join(t: seq<string>): (r: string)
    ensures CommaFree(t) ==> WithoutCommas(r) == Concat(t)
    ensures |t| > 0 ==> |r| == |Concat(t)| + |t| - 1
  {
    if |t| == 0 then ""
    else if |t| == 1 then
      WithoutCommasNoComma(t[0]);
      t[0]
    else
      WithoutCommasAround(t[0], Join(t[1..]));
      WithoutCommasNoComma(t[0]);
      t[0] + "," + Join(t[1..])
  }

  /** No element holds a comma. */
  predicate CommaFree(t: seq<string>)
  {
    forall i :: 0 <= i < |t| ==> ',' !in t[i]
  }

  /** Joining a list with a new first element. */
  lemma {:induction false} JoinCons(a: string, t: seq<string>)
    ensures Join([a] + t) == if |t| == 0 then a else a + "," + Join(t)
  {
    assert ([a] + t)[1..] == t;
  }

  /** `str::split(",")`: every comma-separated segment, empty ones included,
      so there is always at least one. Joining the segments gives back the
      input. */
  function Split(s: string): (r: seq<string>)
    ensures |r| >= 1
    ensures CommaFree(r)
    ensures Join(r) == s
  {
    if |s| == 0 then [""]
    else
      var rest := Split(s[1..]);
      assert s == [s[0]] + s[1..];
      if s[0] == ',' then
        JoinCons("", rest);
        [""] + rest
      else
        JoinExtendFirst(s[0], rest);
        [[s[0]] + rest[0]] + rest[1..]
  }

  /** Prefixing the first element with `c` prefixes the joined string. */
  lemma {:induction false} JoinExtendFirst(c: char, t: seq<string>)
    requires |t| >= 1
    ensures Join([[c] + t[0]] + t[1..]) == [c] + Join(t)
  {
    var u := [[c] + t[0]] + t[1..];
    assert |u| == |t| && u[0] == [c] + t[0] && u[1..] == t[1..];
    if |t| > 1 {
      var j := Join(t[1..]);
      assert Join(u) == ([c] + t[0]) + "," + j;
      assert Join(t) == t[0] + "," + j;
      assert ([c] + t[0]) + "," + j == [c] + (t[0] + "," + j);
    }
  }

  /** A comma-free string is a single segment. */
  lemma {:induction false} SplitNoComma(a: string)
    requires ',' !in a
    ensures Split(a) == [a]
  {
    if |a| > 0 {
      SplitNoComma(a[1..]);
      assert [a[0]] + a[1..] == a;
    }
  }

  /** A comma-free prefix followed by a comma is the first segment. */
  lemma {:induction false} SplitAfterSegment(a: string, b: string)
    requires ',' !in a
    ensures Split(a + "," + b) == [a] + Split(b)
  {
    var s := a + "," + b;
    if |a| == 0 {
      assert s[1..] == b;
    } else {
      assert s[1..] == a[1..] + "," + b;
      SplitAfterSegment(a[1..], b);
      assert [a[0]] + a[1..] == a;
    }
  }

  /** Splitting undoes joining for a non-empty list of comma-free
      segments. */
  lemma {:induction false} SplitJoin(t: seq<string>)
    requires |t| >= 1
    requires CommaFree(t)
    ensures Split(Join(t)) == t
  {
    if |t| == 1 {
      SplitNoComma(t[0]);
    } else {
      SplitAfterSegment(t[0], Join(t[1..]));
      SplitJoin(t[1..]);
      assert [t[0]] + t[1..] == t;
    }
  }

  // ----------------------------------------------------------------- tags

  /** What a tag list built by the logger holds: non-empty tags without
      commas. */
  predicate IsTag(x: string)
  {
    x != "" && ',' !in x
  }

  predicate ValidTags(t: seq<string>)
  {
    forall i :: 0 <= i < |t| ==> IsTag(t[i])
  }

  /** The `filter(|s| !s.is_empty())` step: the non-empty segments, in
      order. */
  function NonEmpty(ps: seq<string>): (r: seq<string>)
    ensures |r| <= |ps|
    ensures forall i :: 0 <= i < |r| ==> r[i] != "" && r[i] in ps
  {
    if |ps| == 0 then []
    else if ps[0] == "" then NonEmpty(ps[1..])
    else [ps[0]] + NonEmpty(ps[1..])
  }

  /** `tags_vec`: the comma-separated segments of `s` with the empty ones
      dropped. Every tag is non-empty and comma-free. */
  function TagsVec(s: string): (r: seq<string>)
    ensures ValidTags(r)
  {
    NonEmpty(Split(s))
  }

  /** `tags_string`: the tags joined with commas. The string of a non-empty
      valid tag list splits back into exactly its tags; the empty list gives
      the empty string. */
  function TagsString(t: seq<string>): (r: string)
    ensures ValidTags(t) && |t| > 0 ==> Split(r) == t
    ensures t == [] ==> r == ""
  {
    var r := Join(t);
    if |t| > 0 && ValidTags(t) then SplitJoin(t); r else r
  }

  /** A list with no empty element passes the filter unchanged. */
  lemma {:induction false} NonEmptyKeeps(ps: seq<string>)
    requires forall i :: 0 <= i < |ps| ==> ps[i] != ""
    ensures NonEmpty(ps) == ps
  {
    if |ps| > 0 {
      NonEmptyKeeps(ps[1..]);
      assert [ps[0]] + ps[1..] == ps;
    }
  }

  /** One step of the filter: the head, when it is kept, then the filtered
      tail. */
  lemma NonEmptyUnfold(ps: seq<string>)
    requires |ps| > 0
    ensures NonEmpty(ps) == (if ps[0] == "" then [] else [ps[0]]) + NonEmpty(ps[1..])
  {
  }

  /** The filter distributes over concatenation: it keeps every non-empty
      element, in order and with its multiplicity. */
  lemma {:induction false} NonEmptyAppend(a: seq<string>, b: seq<string>)
    ensures NonEmpty(a + b) == NonEmpty(a) + NonEmpty(b)
  {
    if |a| == 0 {
      assert a + b == b;
    } else {
      var ab := a + b;
      var h: seq<string> := if a[0] == "" then [] else [a[0]];
      var x, y := NonEmpty(a[1..]), NonEmpty(b);
      assert NonEmpty(ab) == h + (x + y) by {
        assert ab[0] == a[0] && ab[1..] == a[1..] + b;
        NonEmptyUnfold(ab);
        NonEmptyAppend(a[1..], b);
      }
      assert NonEmpty(a) == h + x by {
        NonEmptyUnfold(a);
      }
      assert h + (x + y) == (h + x) + y;
    }
  }

  /** Joining two non-empty lists puts one comma between their joins. */
  lemma {:induction false} JoinAppend(x: seq<string>, y: seq<string>)
    requires |x| > 0 && |y| > 0
    ensures Join(x + y) == Join(x) + "," + Join(y)
  {
    if |x| == 1 {
      assert x + y == [x[0]] + y;
      JoinCons(x[0], y);
    } else {
      var jx, jy := Join(x[1..]), Join(y);
      assert Join(x + y) == x[0] + "," + Join(x[1..] + y) by {
        assert x + y == [x[0]] + (x[1..] + y);
        JoinCons(x[0], x[1..] + y);
      }
      assert Join(x[1..] + y) == jx + "," + jy by {
        JoinAppend(x[1..], y);
      }
      assert x[0] + "," + (jx + "," + jy) == (x[0] + "," + jx) + "," + jy;
    }
  }

  /** Both lists comma-free, so their concatenation is. */
  lemma CommaFreeAppend(x: seq<string>, y: seq<string>)
    requires CommaFree(x) && CommaFree(y)
    ensures CommaFree(x + y)
  {
    forall i | 0 <= i < |x + y|
      ensures ',' !in (x + y)[i]
    {
      if i >= |x| {
        assert (x + y)[i] == y[i - |x|];
      }
    }
  }

  /** A comma splits the string into the segments before it followed by
      the segments after it. */
  lemma SplitAtComma(a: string, b: string)
    ensures Split(a + "," + b) == Split(a) + Split(b)
  {
    var x, y := Split(a), Split(b);
    CommaFreeAppend(x, y);
    JoinAppend(x, y);
    SplitJoin(x + y);
  }

  /** The tags of two strings joined by a comma are the tags of the first
      followed by the tags of the second. */
  lemma TagsVecAtComma(a: string, b: string)
    ensures TagsVec(a + "," + b) == TagsVec(a) + TagsVec(b)
  {
    SplitAtComma(a, b);
    NonEmptyAppend(Split(a), Split(b));
  }

  /** A comma-free string is one tag, or no tag when it is empty. Together
      with `TagsVecAtComma` this determines the tags of every string. */
  lemma TagsVecSegment(a: string)
    requires ',' !in a
    ensures TagsVec(a) == if a == "" then [] else [a]
  {
    SplitNoComma(a);
    assert [a][1..] == [];
  }

  /** Parsing undoes serialising for every valid tag list, including the
      empty one. */
  lemma TagsRoundTrip(t: seq<string>)
    requires ValidTags(t)
    ensures TagsVec(TagsString(t)) == t
  {
    if |t| == 0 {
      assert Split("") == [""];
    } else {
      SplitJoin(t);
      NonEmptyKeeps(t);
    }
  }

  /** Normalising through the tag string is idempotent. */
  lemma TagsNormalizeIdempotent(s: string)
    ensures TagsVec(TagsString(TagsVec(s))) == TagsVec(s)
  {
    TagsRoundTrip(TagsVec(s));
  }

  /** Concatenation of a list of strings. */
  function Concat(t: seq<string>): string
  {
    if |t| == 0 then "" else t[0] + Concat(t[1..])
  }

  /** `s` without its commas. */
  function WithoutCommas(s: string): string
  {
    if |s| == 0 then ""
    else if s[0] == ',' then WithoutCommas(s[1..])
    else [s[0]] + WithoutCommas(s[1..])
  }

  lemma {:induction false} WithoutCommasNoComma(x: string)
    ensures ',' !in x ==> WithoutCommas(x) == x
  {
    if |x| > 0 {
      WithoutCommasNoComma(x[1..]);
      assert [x[0]] + x[1..] == x;
    }
  }

  lemma {:induction false} WithoutCommasAround(x: string, y: string)
    ensures WithoutCommas(x + "," + y) == WithoutCommas(x) + WithoutCommas(y)
  {
    var s := x + "," + y;
    if |x| == 0 {
      assert s[1..] == y;
    } else {
      assert s[0] == x[0] && s[1..] == x[1..] + "," + y;
      WithoutCommasAround(x[1..], y);
    }
  }

  lemma {:induction false} ConcatNonEmpty(ps: seq<string>)
    ensures Concat(NonEmpty(ps)) == Concat(ps)
  {
    if |ps| > 0 {
      ConcatNonEmpty(ps[1..]);
      assert Concat(ps) == ps[0] + Concat(ps[1..]);
      if ps[0] != "" {
        var r := [ps[0]] + NonEmpty(ps[1..]);
        assert NonEmpty(ps) == r;
        assert r[0] == ps[0] && r[1..] == NonEmpty(ps[1..]);
        assert Concat(r) == ps[0] + Concat(NonEmpty(ps[1..]));
      } else {
        assert NonEmpty(ps) == NonEmpty(ps[1..]);
      }
    }
  }

  lemma {:induction false} ConcatSplit(s: string)
    ensures Concat(Split(s)) == WithoutCommas(s)
  {
    if |s| > 0 {
      ConcatSplit(s[1..]);
      var rest := Split(s[1..]);
      if s[0] == ',' {
        assert ([""] + rest)[1..] == rest;
      } else {
        var r := [[s[0]] + rest[0]] + rest[1..];
        assert r[1..] == rest[1..];
        assert Concat(rest) == rest[0] + Concat(rest[1..]);
      }
    }
  }

  /** The tags of `s`, read one after the other, are exactly the characters
      of `s` that are not commas, in their original order. */
  lemma TagsKeepContentAndOrder(s: string)
    ensures Concat(TagsVec(s)) == WithoutCommas(s)
  {
    ConcatNonEmpty(Split(s));
    ConcatSplit(s);
  }

  // ---------------------------------------------------------------- logs

  /** `QuLog` without its creation date. */
  datatype QuLog = QuLog(text: string, tags: seq<string>)

  /** `QuLogDBO` without its creation date: the row as stored, with the
      tags as one comma-joined string. */
  datatype QuLogDbo = QuLogDbo(text: string, tags: string)

  /** `QuLogDBO::from_log`. */
  function FromLog(log: QuLog): (r: QuLogDbo)
    ensures r.text == log.text
  {
    QuLogDbo(log.text, Join(log.tags))
  }

  /** `QuLogDBO::to_log`: the stored string is split on commas without
      dropping empty segments, so an empty string reads back as `[""]`. */
  function ToLog(dbo: QuLogDbo): (r: QuLog)
    ensures r.text == dbo.text
    ensures |r.tags| >= 1
  {
    QuLog(dbo.text, Split(dbo.tags))
  }

  /** Reading a row and writing it back gives the same row, whatever it
      holds. */
  lemma RowRoundTrip(dbo: QuLogDbo)
    ensures FromLog(ToLog(dbo)) == dbo
  {
  }

  /** Writing a log and reading it back keeps its text, and keeps its
      comma-free tags exactly when there is at least one tag. */
  lemma LogRoundTrip(log: QuLog)
    requires forall i :: 0 <= i < |log.tags| ==> ',' !in log.tags[i]
    ensures ToLog(FromLog(log)).text == log.text
    ensures ToLog(FromLog(log)).tags == log.tags <==> |log.tags| > 0
  {
    if |log.tags| > 0 {
      SplitJoin(log.tags);
    } else {
      assert Split("") == [""];
    }
  }

  /** A log without tags reads back with one empty tag. */
  lemma EmptyTagsReadBack(text: string)
    ensures ToLog(FromLog(QuLog(text, []))).tags == [""]
  {
    assert Split("") == [""];
  }

  /** The mapping test of the source: text and the two tags survive. */
  lemma ModelMappingExample()
    ensures ToLog(FromLog(QuLog("Hello world", ["hello", "world"])))
      == QuLog("Hello world", ["hello", "world"])
  {
    LogRoundTrip(QuLog("Hello world", ["hello", "world"]));
  }

  // -------------------------------------------------------------- create

  /** The tag list of the `Create` arm: none without `--tags`, otherwise
      the comma-separated values with the empty ones dropped (the same
      computation as `tags_vec`). */
  function CreateTags(tags: Option<string>): (r: seq<string>)
    ensures ValidTags(r)
    ensures tags.None? ==> r == []
    ensures tags.Some? ==> r == TagsVec(tags.value)
  {
    match tags
    case None => []
    case Some(s) => TagsVec(s)
  }

  /** The log the `Create` arm builds, without its creation date. */
  function CreateLog(text: string, tags: Option<string>): (r: QuLog)
    ensures r.text == text && ValidTags(r.tags)
  {
    QuLog(text, CreateTags(tags))
  }

  /** A created log survives the row mapping, except that a log created
      without tags reads back with the single empty tag. */
  lemma CreatedLogReadBack(text: string, tags: Option<string>)
    ensures ToLog(FromLog(CreateLog(text, tags))).text == text
    ensures ToLog(FromLog(CreateLog(text, tags))).tags ==
      if CreateTags(tags) == [] then [""] else CreateTags(tags)
  {
    LogRoundTrip(CreateLog(text, tags));
  }
}
