/**
 * `detect_extra_langs`: finds the columns named `lang:xx` and builds the
 * ordered tag-to-column dictionary the emitter walks after ru, en and la.
 */
module ExtraLangs {
  import opened Wrappers
  import opened Text

  /** One item of the ordered dictionary: a language tag and the column that holds it. */
  datatype LangEntry = LangEntry(tag: string, column: string)

  /** A two-letter lower-case tag. */
  predicate IsLangTag(t: string) {
    |t| == 2 && 'a' <= t[0] <= 'z' && 'a' <= t[1] <= 'z'
  }

  /** The tag a column name announces, if it is `lang:` plus two letters once lowered and trimmed. */
  function TagOf(column: string): Option<string> {
    var cl := Strip(Lower(column));
    if StartsWith(cl, "lang:") && |cl| == 7 && IsAlpha(cl[5]) && IsAlpha(cl[6]) then Some(cl[5..7]) else None
  }

  /** Every tag found is two lower-case letters. */
  lemma TagOfIsLangTag(column: string)
    ensures TagOf(column).Some? ==> IsLangTag(TagOf(column).value)
  {
    var low := Lower(column);
    var cl := Strip(low);
    if TagOf(column).Some? {
      StripIsSlice(low, 5);
      StripIsSlice(low, 6);
      LowerLength(column);
      LowerAt(column, |low| - |LStrip(low)| + 5);
      LowerAt(column, |low| - |LStrip(low)| + 6);
    }
  }

  /** A column announces `tag` exactly when, lowered and trimmed, it reads `lang:` + `tag`. */
  lemma TagOfMeaning(column: string, tag: string)
    requires IsLangTag(tag)
    ensures TagOf(column) == Some(tag) <==> Strip(Lower(column)) == "lang:" + tag
  {
    var cl := Strip(Lower(column));
    if cl == "lang:" + tag {
      assert cl[..5] == "lang:" && cl[5..7] == tag;
    }
    if TagOf(column) == Some(tag) {
      assert cl == cl[..5] + cl[5..7];
    }
  }

  /** The keys of the dictionary, in order. */
  function Tags(m: seq<LangEntry>): seq<string> {
    seq(|m|, i requires 0 <= i < |m| => m[i].tag)
  }

  /** Dictionaries have one item per key. */
  predicate TagsDistinct(m: seq<LangEntry>) {
    forall i, j :: 0 <= i < j < |m| ==> m[i].tag != m[j].tag
  }

  /**
   * `extra[tag] = column`: an existing key keeps its place and takes the new
   * value; a new key goes at the end.
   */
  function Put(m: seq<LangEntry>, tag: string, column: string): seq<LangEntry> {
    if tag in Tags(m) then
      seq(|m|, i requires 0 <= i < |m| => if m[i].tag == tag then LangEntry(tag, column) else m[i])
    else
      m + [LangEntry(tag, column)]
  }

  /** The dictionary `detect_extra_langs` returns for `columns`. */
  function DetectedLangs(columns: seq<string>): seq<LangEntry> {
    if columns == [] then []
    else
      var m := DetectedLangs(columns[..|columns| - 1]);
      var c := columns[|columns| - 1];
      match TagOf(c)
      case None => m
      case Some(t) => Put(m, t, c)
  }

  /** The position of the first column announcing `t`, or `|columns|` when there is none. */
  function FirstWithTag(columns: seq<string>, t: string): (r: nat)
    ensures r <= |columns|
  {
    if columns == [] then 0
    else
      var p := FirstWithTag(columns[..|columns| - 1], t);
      if p < |columns| - 1 then p
      else if TagOf(columns[|columns| - 1]) == Some(t) then |columns| - 1
      else |columns|
  }

  /** No column before the first one announces `t`, and the first one does. */
  lemma {:induction false} FirstWithTagMeaning(columns: seq<string>, t: string)
    ensures var r := FirstWithTag(columns, t);
      && (forall k :: 0 <= k < r ==> TagOf(columns[k]) != Some(t))
      && (r < |columns| ==> TagOf(columns[r]) == Some(t))
    decreases |columns|
  {
    if columns != [] {
      FirstWithTagMeaning(columns[..|columns| - 1], t);
    }
  }

  /** The position of the last column announcing `t`, or -1 when there is none. */
  function LastWithTag(columns: seq<string>, t: string): (r: int)
    ensures -1 <= r < |columns|
    ensures forall k :: r < k < |columns| ==> TagOf(columns[k]) != Some(t)
    ensures 0 <= r ==> TagOf(columns[r]) == Some(t)
  {
    if columns == [] then -1
    else if TagOf(columns[|columns| - 1]) == Some(t) then |columns| - 1
    else LastWithTag(columns[..|columns| - 1], t)
  }

  /** The loop of `detect_extra_langs`. */
  method DetectExtraLangs(columns: seq<string>) returns (extra: seq<LangEntry>)
    ensures extra == DetectedLangs(columns)
  {
    extra := [];
    for i := 0 to |columns|
      invariant extra == DetectedLangs(columns[..i])
    {
      var c := columns[i];
      var cl := Strip(Lower(c));
      assert columns[..i + 1][..i] == columns[..i];
      if StartsWith(cl, "lang:") && |cl| == 7 && IsAlpha(cl[5]) && IsAlpha(cl[6]) {
        var iso := cl[5..7];
        extra := Put(extra, iso, c);
      }
    }
    assert columns[..|columns|] == columns;
  }

  lemma PutTags(m: seq<LangEntry>, tag: string, column: string)
    ensures Tags(Put(m, tag, column)) == if tag in Tags(m) then Tags(m) else Tags(m) + [tag]
  {
  }

  /**
   * `extra[tag] = column`: the item of an existing key now holds `column`,
   * every other item is kept, a new key is appended with `column`, and a
   * dictionary stays one with distinct keys.
   */
  lemma PutEntries(m: seq<LangEntry>, tag: string, column: string)
    ensures var p := Put(m, tag, column);
      && |p| == (if tag in Tags(m) then |m| else |m| + 1)
      && (forall i :: 0 <= i < |m| ==> p[i] == (if m[i].tag == tag then LangEntry(tag, column) else m[i]))
      && (tag !in Tags(m) ==> p[|m|] == LangEntry(tag, column))
      && (TagsDistinct(m) ==> TagsDistinct(p))
  {
    var p := Put(m, tag, column);
    if tag !in Tags(m) {
      assert forall i :: 0 <= i < |m| ==> m[i].tag == Tags(m)[i] != tag;
      assert forall i :: 0 <= i < |m| ==> p[i] == m[i];
    }
  }

  /**
   * Every item is a lower-case two-letter tag paired with a column of the
   * input that announces exactly that tag, and no tag appears twice.
   */
  lemma {:induction false} DetectedLangsWellFormed(columns: seq<string>)
    ensures var m := DetectedLangs(columns);
      && TagsDistinct(m)
      && forall i :: 0 <= i < |m| ==>
           IsLangTag(m[i].tag) && m[i].column in columns && TagOf(m[i].column) == Some(m[i].tag)
    decreases |columns|
  {
    if columns != [] {
      var prefix := columns[..|columns| - 1];
      var c := columns[|columns| - 1];
      DetectedLangsWellFormed(prefix);
      assert forall d :: d in prefix ==> d in columns;
      if TagOf(c).Some? {
        TagOfIsLangTag(c);
        PutEntries(DetectedLangs(prefix), TagOf(c).value, c);
      }
    }
  }

  /** A column that announces a tag puts that tag in the dictionary. */
  lemma {:induction false} DetectedLangsComplete(columns: seq<string>, k: nat)
    requires k < |columns| && TagOf(columns[k]).Some?
    ensures TagOf(columns[k]).value in Tags(DetectedLangs(columns))
    decreases |columns|
  {
    var prefix := columns[..|columns| - 1];
    var c := columns[|columns| - 1];
    if k < |prefix| {
      DetectedLangsComplete(prefix, k);
      if TagOf(c).Some? {
        PutTags(DetectedLangs(prefix), TagOf(c).value, c);
      }
    } else {
      PutTags(DetectedLangs(prefix), TagOf(c).value, c);
    }
  }

  /** A tag is a key exactly when some column announces it. */
  lemma {:induction false} DetectedTagsAreAnnounced(columns: seq<string>, t: string)
    ensures t in Tags(DetectedLangs(columns)) <==> FirstWithTag(columns, t) < |columns|
  {
    var r := FirstWithTag(columns, t);
    FirstWithTagMeaning(columns, t);
    if r < |columns| {
      DetectedLangsComplete(columns, r);
    }
    if t in Tags(DetectedLangs(columns)) {
      DetectedLangsWellFormed(columns);
      var m := DetectedLangs(columns);
      var i :| 0 <= i < |m| && m[i].tag == t;
      var k :| 0 <= k < |columns| && columns[k] == m[i].column;
      assert TagOf(columns[k]) == Some(t);
    }
  }

  /** A repeated tag takes the last column that announces it. */
  lemma {:induction false} DetectedLangsLastColumn(columns: seq<string>, i: nat)
    requires i < |DetectedLangs(columns)|
    ensures var e := DetectedLangs(columns)[i]; var last := LastWithTag(columns, e.tag);
      0 <= last && e.column == columns[last]
    decreases |columns|
  {
    var prefix := columns[..|columns| - 1];
    var m := DetectedLangs(prefix);
    var c := columns[|columns| - 1];
    var e := DetectedLangs(columns)[i];
    if TagOf(c) == Some(e.tag) {
      assert LastWithTag(columns, e.tag) == |prefix|;
      PutEntries(m, e.tag, c);
    } else {
      assert i < |m| && e == m[i];
      DetectedLangsLastColumn(prefix, i);
      assert LastWithTag(columns, e.tag) == LastWithTag(prefix, e.tag);
    }
  }

  /** The keys after one more column: unchanged, or the column's new tag appended. */
  lemma DetectedTagsStep(columns: seq<string>)
    requires columns != []
    ensures var prefix := columns[..|columns| - 1]; var c := columns[|columns| - 1];
      var ts := Tags(DetectedLangs(prefix));
      Tags(DetectedLangs(columns)) == if TagOf(c).Some? && TagOf(c).value !in ts then ts + [TagOf(c).value] else ts
  {
    var prefix := columns[..|columns| - 1];
    var c := columns[|columns| - 1];
    if TagOf(c).Some? {
      PutTags(DetectedLangs(prefix), TagOf(c).value, c);
    }
  }

  /** The keys, as a sequence, are ordered by first announcing column. */
  lemma {:induction false} DetectedTagsFirstOrder(columns: seq<string>)
    ensures var ts := Tags(DetectedLangs(columns));
      forall i, j :: 0 <= i < j < |ts| ==> FirstWithTag(columns, ts[i]) < FirstWithTag(columns, ts[j])
    decreases |columns|
  {
    if columns != [] {
      var prefix := columns[..|columns| - 1];
      var c := columns[|columns| - 1];
      var ts := Tags(DetectedLangs(prefix));
      DetectedTagsFirstOrder(prefix);
      DetectedTagsStep(columns);
      forall i | 0 <= i < |ts|
        ensures FirstWithTag(columns, ts[i]) == FirstWithTag(prefix, ts[i]) < |prefix|
      {
        DetectedTagsAreAnnounced(prefix, ts[i]);
      }
      if TagOf(c).Some? && TagOf(c).value !in ts {
        DetectedTagsAreAnnounced(prefix, TagOf(c).value);
      }
    }
  }

  /** Tags are in the order in which their first column appears. */
  lemma DetectedLangsFirstOrder(columns: seq<string>)
    ensures var m := DetectedLangs(columns);
      forall i, j :: 0 <= i < j < |m| ==> FirstWithTag(columns, m[i].tag) < FirstWithTag(columns, m[j].tag)
  {
    var m := DetectedLangs(columns);
    var ts := Tags(m);
    DetectedTagsFirstOrder(columns);
    forall i, j | 0 <= i < j < |m|
      ensures FirstWithTag(columns, m[i].tag) < FirstWithTag(columns, m[j].tag)
    {
      assert m[i].tag == ts[i] && m[j].tag == ts[j];
    }
  }
}
