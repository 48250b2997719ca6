/** Derivations from the challenge catalog shared by both tree builders: the
    tag list, a tag's candidate challenges and a challenge's parent name. */
module Catalog {
  import opened Basics
  import opened Records

  /** `Array.from(new Set(s))`: a set keeps insertion order and ignores a
      repeated insertion, so the result keeps the first occurrence of each
      element. */
  function Dedup(s: seq<string>): (r: seq<string>)
    ensures forall x :: x in r <==> x in s
    ensures forall i, j :: 0 <= i < j < |r| ==> r[i] != r[j]
  {
    if s == [] then []
    else
      var n := |s| - 1;
      var d := Dedup(s[..n]);
      assert s == s[..n] + [s[n]];
      if s[n] in d then d else d + [s[n]]
  }

  /** Position of the first occurrence of `x` in `s`. */
  function FirstIndex(s: seq<string>, x: string): (i: nat)
    requires x in s
    ensures i < |s| && s[i] == x && x !in s[..i]
  {
    if s[0] == x then 0
    else
      var j := FirstIndex(s[1..], x);
      assert s[..j + 1] == [s[0]] + s[1..][..j];
      j + 1
  }

  lemma FirstIndexUnique(s: seq<string>, x: string, i: nat)
    requires i < |s| && s[i] == x && x !in s[..i]
    ensures FirstIndex(s, x) == i
  {
  }

  /** The deduplicated sequence lists the elements in the order of their first
      appearance. */
  lemma {:induction false} DedupOrder(s: seq<string>)
    ensures forall i, j :: 0 <= i < j < |Dedup(s)| ==> FirstIndex(s, Dedup(s)[i]) < FirstIndex(s, Dedup(s)[j])
  {
    if s != [] {
      var n := |s| - 1;
      var p := s[..n];
      var d := Dedup(p);
      DedupOrder(p);
      assert s == p + [s[n]];
      forall y | y in d
        ensures FirstIndex(s, y) == FirstIndex(p, y) < n
      {
        var f := FirstIndex(p, y);
        assert s[..f] == p[..f];
        FirstIndexUnique(s, y, f);
      }
      if s[n] !in d {
        assert s[..n] == p;
        FirstIndexUnique(s, s[n], n);
        var r := d + [s[n]];
        forall i, j | 0 <= i < j < |r|
          ensures FirstIndex(s, r[i]) < FirstIndex(s, r[j])
        {
          assert r[i] in d;
          if j < |d| {
            assert r[j] in d;
          }
        }
      } else {
        forall i, j | 0 <= i < j < |d|
          ensures FirstIndex(s, d[i]) < FirstIndex(s, d[j])
        {
          assert d[i] in d && d[j] in d;
        }
      }
    }
  }

  lemma {:induction false} DedupOfDistinct(s: seq<string>)
    requires forall i, j :: 0 <= i < j < |s| ==> s[i] != s[j]
    ensures Dedup(s) == s
  {
    if s != [] {
      var n := |s| - 1;
      DedupOfDistinct(s[..n]);
      assert s[n] !in s[..n];
      assert s[..n] + [s[n]] == s;
    }
  }

  /** Deduplicating after one more element. */
  lemma DedupSnoc(s: seq<string>, e: string)
    ensures Dedup(s + [e]) == if e in Dedup(s) then Dedup(s) else Dedup(s) + [e]
  {
    assert (s + [e])[..|s|] == s;
  }

  lemma {:induction false} DedupAbsorbs(a: seq<string>, b: seq<string>)
    ensures Dedup(Dedup(a) + b) == Dedup(a + b)
    decreases |b|
  {
    if b == [] {
      DedupOfDistinct(Dedup(a));
      assert Dedup(a) + b == Dedup(a) && a + b == a;
    } else {
      var m := |b| - 1;
      var e := b[m];
      DedupAbsorbs(a, b[..m]);
      assert Dedup(a) + b == (Dedup(a) + b[..m]) + [e];
      assert a + b == (a + b[..m]) + [e];
      DedupSnoc(Dedup(a) + b[..m], e);
      DedupSnoc(a + b[..m], e);
    }
  }

  /** All tags of the catalog, record after record, repeats included. */
  function AllTags(cs: seq<ChallengeRecord>): seq<string> {
    if cs == [] then [] else AllTags(cs[..|cs| - 1]) + cs[|cs| - 1].tags
  }

  /** The `reduce` that collects the tags: the accumulator is concatenated
      with each record's tags and passed through a set. */
  function CollectTags(cs: seq<ChallengeRecord>): seq<string> {
    if cs == [] then [] else Dedup(CollectTags(cs[..|cs| - 1]) + cs[|cs| - 1].tags)
  }

  lemma {:induction false} AllTagsMembers(cs: seq<ChallengeRecord>)
    ensures forall t :: t in AllTags(cs) <==> exists i :: 0 <= i < |cs| && t in cs[i].tags
  {
    if cs != [] {
      var n := |cs| - 1;
      AllTagsMembers(cs[..n]);
      forall t ensures t in AllTags(cs) <==> exists i :: 0 <= i < |cs| && t in cs[i].tags {
        if t in AllTags(cs[..n]) {
          var i :| 0 <= i < n && t in cs[..n][i].tags;
          assert t in cs[i].tags;
        }
        if exists i :: 0 <= i < |cs| && t in cs[i].tags {
          var i :| 0 <= i < |cs| && t in cs[i].tags;
          if i < n {
            assert t in cs[..n][i].tags;
          }
        }
      }
    }
  }

  lemma {:induction false} CollectTagsDedups(cs: seq<ChallengeRecord>)
    ensures CollectTags(cs) == Dedup(AllTags(cs))
  {
    if cs != [] {
      var n := |cs| - 1;
      CollectTagsDedups(cs[..n]);
      DedupAbsorbs(AllTags(cs[..n]), cs[n].tags);
    }
  }

  /** The collected tags are every tag of the catalog once, in the order of
      first appearance. */
  lemma CollectTagsIsDedup(cs: seq<ChallengeRecord>)
    ensures CollectTags(cs) == Dedup(AllTags(cs))
    ensures forall t :: t in CollectTags(cs) <==> exists i :: 0 <= i < |cs| && t in cs[i].tags
    ensures forall i, j :: 0 <= i < j < |CollectTags(cs)| ==> CollectTags(cs)[i] != CollectTags(cs)[j]
    ensures forall i, j :: 0 <= i < j < |CollectTags(cs)| ==>
              FirstIndex(AllTags(cs), CollectTags(cs)[i]) < FirstIndex(AllTags(cs), CollectTags(cs)[j])
  {
    CollectTagsDedups(cs);
    AllTagsMembers(cs);
    DedupOrder(AllTags(cs));
  }

  /** `challenges.filter(c => c.tags.includes(tag) && c.enabled)` */
  function TagMembers(cs: seq<ChallengeRecord>, tag: string): seq<ChallengeRecord> {
    if cs == [] then []
    else (if tag in cs[0].tags && cs[0].enabled then [cs[0]] else []) + TagMembers(cs[1..], tag)
  }

  /** A tag's candidates are exactly the enabled records carrying the tag. */
  lemma {:induction false} TagMembersExact(cs: seq<ChallengeRecord>, tag: string)
    ensures forall c :: c in TagMembers(cs, tag) <==> c in cs && tag in c.tags && c.enabled
    ensures |TagMembers(cs, tag)| <= |cs|
  {
    if cs != [] {
      TagMembersExact(cs[1..], tag);
      assert cs == [cs[0]] + cs[1..];
    }
  }

  /** `challenges.find(c => c.childrenNames?.includes(name))?.name`: the name
      of the first record that lists `name` among its children. */
  function ParentName(cs: seq<ChallengeRecord>, name: string): (r: Option<string>)
    ensures r.None? <==> forall i :: 0 <= i < |cs| ==> name !in cs[i].childrenNames
    ensures r.Some? ==> exists i :: 0 <= i < |cs| && cs[i].name == r.value && name in cs[i].childrenNames &&
                          forall j :: 0 <= j < i ==> name !in cs[j].childrenNames
  {
    if cs == [] then None
    else if name in cs[0].childrenNames then Some(cs[0].name)
    else
      var r := ParentName(cs[1..], name);
      assert forall k :: 1 <= k < |cs| ==> cs[k] == cs[1..][k - 1];
      if r.Some? then
        var k :| 0 <= k < |cs| - 1 && cs[1..][k].name == r.value && name in cs[1..][k].childrenNames &&
                 forall j :: 0 <= j < k ==> name !in cs[1..][j].childrenNames;
        assert cs[k + 1] == cs[1..][k];
        r
      else r
  }
}
