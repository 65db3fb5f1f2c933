/**
 * The meta-tag table built by `extract_meta_tags`.
 *
 * The two `findall` scans of the page (the `property`/`content` pattern, then
 * the `name`/`content` pattern) are inputs here: each is the sequence of its
 * matches in document order. Keys are lower-cased and every match overwrites
 * whatever the table held for that key, so the last write wins and a
 * `name` tag beats a `property` tag with the same key.
 */
module MetaTags {

  /** One match of a meta-tag pattern: the attribute value naming the tag, and its content. */
  datatype TagMatch = TagMatch(key: string, content: string)

  predicate IsUpper(c: char)
  {
    'A' <= c <= 'Z'
  }

  /** The string has no upper-case letter. */
  predicate IsLowerCase(s: string)
  {
    forall i :: 0 <= i < |s| ==> !IsUpper(s[i])
  }

  function LowerChar(c: char): char
  {
    if IsUpper(c) then (c as int - 'A' as int + 'a' as int) as char else c
  }

  /** `s.lower()` on ASCII letters. */
  function Lower(s: string): (r: string)
    ensures |r| == |s| && IsLowerCase(r)
    ensures IsLowerCase(s) ==> r == s
    ensures forall i :: 0 <= i < |s| && !IsUpper(s[i]) ==> r[i] == s[i]
    ensures forall i :: 0 <= i < |s| && IsUpper(s[i]) ==> r[i] as int - s[i] as int == 'a' as int - 'A' as int
  {
    seq(|s|, i requires 0 <= i < |s| => LowerChar(s[i]))
  }

  /** The table after `tags[key.lower()] = content` for each match, in order. */
  function Insert(tags: map<string, string>, ms: seq<TagMatch>): map<string, string>
    decreases |ms|
  {
    if ms == [] then tags
    else
      var last := ms[|ms| - 1];
      Insert(tags, ms[..|ms| - 1])[Lower(last.key) := last.content]
  }

  /** The lower-cased keys of a sequence of matches. */
  function KeysOf(ms: seq<TagMatch>): set<string>
  {
    set i | 0 <= i < |ms| :: Lower(ms[i].key)
  }

  /** The table `extract_meta_tags` returns: the property pass, then the name pass. */
  function TagTable(props: seq<TagMatch>, names: seq<TagMatch>): map<string, string>
  {
    Insert(Insert(map[], props), names)
  }

  /** Match `j` is the last one in `ms` whose lower-cased key is `k`. */
  ghost predicate IsLastFor(ms: seq<TagMatch>, k: string, j: int)
  {
    0 <= j < |ms| && Lower(ms[j].key) == k &&
    forall j' :: j < j' < |ms| ==> Lower(ms[j'].key) != k
  }

  lemma {:induction false} InsertKeys(tags: map<string, string>, ms: seq<TagMatch>)
    ensures Insert(tags, ms).Keys == tags.Keys + KeysOf(ms)
    decreases |ms|
  {
    if ms != [] {
      var init := ms[..|ms| - 1];
      InsertKeys(tags, init);
      assert KeysOf(ms) == KeysOf(init) + {Lower(ms[|ms| - 1].key)} by {
        forall k | k in KeysOf(ms) ensures k in KeysOf(init) + {Lower(ms[|ms| - 1].key)} {
          var i :| 0 <= i < |ms| && Lower(ms[i].key) == k;
          if i < |ms| - 1 { assert init[i] == ms[i]; }
        }
        forall k | k in KeysOf(init) ensures k in KeysOf(ms) {
          var i :| 0 <= i < |init| && Lower(init[i].key) == k;
          assert ms[i] == init[i];
        }
      }
    }
  }

  /** The last match for a key decides its value, whatever the table held before. */
  lemma {:induction false} InsertLastWins(tags: map<string, string>, ms: seq<TagMatch>, k: string, j: int)
    requires IsLastFor(ms, k, j)
    ensures k in Insert(tags, ms) && Insert(tags, ms)[k] == ms[j].content
    decreases |ms|
  {
    if j < |ms| - 1 {
      var init := ms[..|ms| - 1];
      assert IsLastFor(init, k, j) by {
        forall j' | j < j' < |init| ensures Lower(init[j'].key) != k {
          assert init[j'] == ms[j'];
        }
      }
      InsertLastWins(tags, init, k, j);
    }
  }

  /** A key no match produces keeps its old entry, or its absence. */
  lemma {:induction false} InsertUntouched(tags: map<string, string>, ms: seq<TagMatch>, k: string)
    requires k !in KeysOf(ms)
    ensures k in Insert(tags, ms) <==> k in tags
    ensures k in tags ==> Insert(tags, ms)[k] == tags[k]
    decreases |ms|
  {
    if ms != [] {
      var init := ms[..|ms| - 1];
      assert Lower(ms[|ms| - 1].key) in KeysOf(ms);
      forall k' | k' in KeysOf(init) ensures k' in KeysOf(ms) {
        var i :| 0 <= i < |init| && Lower(init[i].key) == k';
        assert ms[i] == init[i];
      }
      InsertUntouched(tags, init, k);
    }
  }

  /** Every key that some match produces has a last match. */
  lemma {:induction false} LastForExists(ms: seq<TagMatch>, k: string) returns (j: int)
    requires k in KeysOf(ms)
    ensures IsLastFor(ms, k, j)
    decreases |ms|
  {
    if Lower(ms[|ms| - 1].key) == k {
      j := |ms| - 1;
    } else {
      var init := ms[..|ms| - 1];
      var i :| 0 <= i < |ms| && Lower(ms[i].key) == k;
      assert init[i] == ms[i];
      j := LastForExists(init, k);
      assert forall j' :: j < j' < |init| ==> init[j'] == ms[j'];
    }
  }

  /** The table's keys are exactly the lower-cased keys of both passes, and all are lower-case. */
  lemma TagTableKeys(props: seq<TagMatch>, names: seq<TagMatch>)
    ensures TagTable(props, names).Keys == KeysOf(props) + KeysOf(names)
    ensures forall k :: k in TagTable(props, names) ==> IsLowerCase(k)
  {
    InsertKeys(map[], props);
    InsertKeys(Insert(map[], props), names);
  }

  /** A key some `name` tag carries holds the content of the last such tag,
      overriding any `property` tag with that key. */
  lemma NameTagWins(props: seq<TagMatch>, names: seq<TagMatch>, k: string, j: int)
    requires IsLastFor(names, k, j)
    ensures k in TagTable(props, names) && TagTable(props, names)[k] == names[j].content
  {
    InsertLastWins(Insert(map[], props), names, k, j);
  }

  /** A key only `property` tags carry holds the content of the last such tag. */
  lemma PropertyTagKept(props: seq<TagMatch>, names: seq<TagMatch>, k: string, i: int)
    requires k !in KeysOf(names) && IsLastFor(props, k, i)
    ensures k in TagTable(props, names) && TagTable(props, names)[k] == props[i].content
  {
    InsertLastWins(map[], props, k, i);
    InsertUntouched(Insert(map[], props), names, k);
  }

  /** `extract_meta_tags`: the two passes over the matches, writing into one dictionary. */
  method ExtractMetaTags(props: seq<TagMatch>, names: seq<TagMatch>) returns (tags: map<string, string>)
    ensures tags == TagTable(props, names)
    ensures tags.Keys == KeysOf(props) + KeysOf(names)
    ensures forall k :: k in tags ==> IsLowerCase(k)
  {
    tags := map[];
    for i := 0 to |props|
      invariant tags == Insert(map[], props[..i])
    {
      assert props[..i + 1][..i] == props[..i];
      tags := tags[Lower(props[i].key) := props[i].content];
    }
    assert props[..|props|] == props;
    for j := 0 to |names|
      invariant tags == Insert(Insert(map[], props), names[..j])
    {
      assert names[..j + 1][..j] == names[..j];
      tags := tags[Lower(names[j].key) := names[j].content];
    }
    assert names[..|names|] == names;
    TagTableKeys(props, names);
  }
}
