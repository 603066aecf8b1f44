/**
 * The crawl frontier and the flag list as values: what `add_url_to_queue`
 * and `dissect_page` do to the queue, the blacklist and the flags, and the
 * invariants they keep.
 *
 * The queue dict is modelled as the sequence of its keys in insertion
 * order; the blacklist dict as the set of its keys.
 */
module Frontier {
  import opened Text

  const Origin: string := "http://fring.ccs.neu.edu"
  const FlagPrefix: string := "FLAG: "

  predicate NoDup(s: seq<string>)
  {
    forall i, j :: 0 <= i < j < |s| ==> s[i] != s[j]
  }

  /** No queued URL is blacklisted and the queue holds each URL once. */
  predicate FrontierValid(queue: seq<string>, blacklist: set<string>)
  {
    NoDup(queue) && forall u :: u in queue ==> u !in blacklist
  }

  /** `add_url_to_queue(href)` on the queue. */
  function Enqueue(queue: seq<string>, blacklist: set<string>, href: string): seq<string>
  {
    var actual := Origin + href;
    if actual !in queue && actual !in blacklist then
      if ':' !in href then queue + [actual] else queue
    else queue
  }

  /** `add_url_to_queue` for each href in turn. */
  function EnqueueAll(queue: seq<string>, blacklist: set<string>, hrefs: seq<string>): seq<string>
    decreases |hrefs|
  {
    if hrefs == [] then queue
    else Enqueue(EnqueueAll(queue, blacklist, hrefs[..|hrefs| - 1]), blacklist, hrefs[|hrefs| - 1])
  }

  /** The URL an href admits to the queue: the origin followed by an href without `:`, unless blacklisted. */
  predicate Admitted(u: string, blacklist: set<string>, href: string)
  {
    u == Origin + href && ':' !in href && u !in blacklist
  }

  /**
   * Enqueue adds exactly the origin-prefixed href, only when the href has no
   * `:` and the URL is neither queued nor blacklisted; nothing already queued
   * moves.
   */
  lemma EnqueueMembership(queue: seq<string>, blacklist: set<string>, href: string)
    ensures forall u :: u in Enqueue(queue, blacklist, href) <==> u in queue || Admitted(u, blacklist, href)
    ensures |queue| <= |Enqueue(queue, blacklist, href)| && Enqueue(queue, blacklist, href)[..|queue|] == queue
    ensures ':' in href ==> Enqueue(queue, blacklist, href) == queue
  {
    var r := Enqueue(queue, blacklist, href);
    assert r[..|queue|] == queue;
  }

  /** Adding the same href twice has the effect of adding it once. */
  lemma EnqueueIdempotent(queue: seq<string>, blacklist: set<string>, href: string)
    ensures Enqueue(Enqueue(queue, blacklist, href), blacklist, href) == Enqueue(queue, blacklist, href)
  {
    var once := Enqueue(queue, blacklist, href);
    if once != queue {
      assert once[|once| - 1] == Origin + href;
      assert Origin + href in once;
    }
  }

  /** Enqueue keeps the queue duplicate-free and disjoint from the blacklist. */
  lemma EnqueueValid(queue: seq<string>, blacklist: set<string>, href: string)
    requires FrontierValid(queue, blacklist)
    ensures FrontierValid(Enqueue(queue, blacklist, href), blacklist)
  {
    EnqueueMembership(queue, blacklist, href);
  }

  /** Enqueueing a run of hrefs keeps the frontier valid and only appends. */
  lemma {:induction false} EnqueueAllValid(queue: seq<string>, blacklist: set<string>, hrefs: seq<string>)
    requires FrontierValid(queue, blacklist)
    ensures FrontierValid(EnqueueAll(queue, blacklist, hrefs), blacklist)
    ensures |queue| <= |EnqueueAll(queue, blacklist, hrefs)| && EnqueueAll(queue, blacklist, hrefs)[..|queue|] == queue
    decreases |hrefs|
  {
    if hrefs != [] {
      var before := EnqueueAll(queue, blacklist, hrefs[..|hrefs| - 1]);
      EnqueueAllValid(queue, blacklist, hrefs[..|hrefs| - 1]);
      EnqueueValid(before, blacklist, hrefs[|hrefs| - 1]);
      EnqueueMembership(before, blacklist, hrefs[|hrefs| - 1]);
      var after := EnqueueAll(queue, blacklist, hrefs);
      assert after[..|before|] == before;
      assert after[..|queue|] == before[..|queue|];
    }
  }

  /** After enqueueing a run of hrefs, the queue holds exactly the old entries and the admitted hrefs. */
  lemma {:induction false} EnqueueAllMembership(queue: seq<string>, blacklist: set<string>, hrefs: seq<string>, u: string)
    ensures u in EnqueueAll(queue, blacklist, hrefs) <==>
      u in queue || exists i :: 0 <= i < |hrefs| && Admitted(u, blacklist, hrefs[i])
    decreases |hrefs|
  {
    if hrefs != [] {
      var init := hrefs[..|hrefs| - 1];
      var last := hrefs[|hrefs| - 1];
      EnqueueAllMembership(queue, blacklist, init, u);
      EnqueueMembership(EnqueueAll(queue, blacklist, init), blacklist, last);
      if exists i :: 0 <= i < |hrefs| && Admitted(u, blacklist, hrefs[i]) {
        var i :| 0 <= i < |hrefs| && Admitted(u, blacklist, hrefs[i]);
        if i < |init| {
          assert Admitted(u, blacklist, init[i]);
        }
      }
      if exists i :: 0 <= i < |init| && Admitted(u, blacklist, init[i]) {
        var i :| 0 <= i < |init| && Admitted(u, blacklist, init[i]);
        assert Admitted(u, blacklist, hrefs[i]);
      }
    }
  }

  /** `flag.string.replace('FLAG: ', '')`. */
  function StripFlag(text: string): string
  {
    Replace(text, FlagPrefix, "")
  }

  /** One flag element: add its stripped text unless it is already listed. */
  function AddFlag(flags: seq<string>, text: string): seq<string>
  {
    var temp := StripFlag(text);
    if temp !in flags then flags + [temp] else flags
  }

  /** The flag loop of `dissect_page`, element by element. */
  function AddFlags(flags: seq<string>, texts: seq<string>): seq<string>
    decreases |texts|
  {
    if texts == [] then flags else AddFlag(AddFlags(flags, texts[..|texts| - 1]), texts[|texts| - 1])
  }

  /** The flag list only grows at its end and stays duplicate-free. */
  lemma {:induction false} AddFlagsGrows(flags: seq<string>, texts: seq<string>)
    requires NoDup(flags)
    ensures NoDup(AddFlags(flags, texts))
    ensures |flags| <= |AddFlags(flags, texts)| && AddFlags(flags, texts)[..|flags|] == flags
    decreases |texts|
  {
    if texts != [] {
      var before := AddFlags(flags, texts[..|texts| - 1]);
      AddFlagsGrows(flags, texts[..|texts| - 1]);
      var after := AddFlags(flags, texts);
      assert after[..|before|] == before;
      assert after[..|flags|] == before[..|flags|];
    }
  }

  /** A string is listed after the loop exactly when it was listed before or is the stripped text of an element seen. */
  lemma {:induction false} AddFlagsMembership(flags: seq<string>, texts: seq<string>, u: string)
    ensures u in AddFlags(flags, texts) <==>
      u in flags || exists i :: 0 <= i < |texts| && u == StripFlag(texts[i])
    decreases |texts|
  {
    if texts != [] {
      var init := texts[..|texts| - 1];
      AddFlagsMembership(flags, init, u);
      if exists i :: 0 <= i < |texts| && u == StripFlag(texts[i]) {
        var i :| 0 <= i < |texts| && u == StripFlag(texts[i]);
        if i < |init| {
          assert u == StripFlag(init[i]);
        }
      }
      if exists i :: 0 <= i < |init| && u == StripFlag(init[i]) {
        var i :| 0 <= i < |init| && u == StripFlag(init[i]);
        assert u == StripFlag(texts[i]);
      }
    }
  }

  /**
   * The flag list only grows at its end, stays duplicate-free, and holds
   * exactly the old flags and the stripped texts of the elements seen.
   */
  lemma AddFlagsSpec(flags: seq<string>, texts: seq<string>)
    requires NoDup(flags)
    ensures NoDup(AddFlags(flags, texts))
    ensures |flags| <= |AddFlags(flags, texts)| && AddFlags(flags, texts)[..|flags|] == flags
    ensures forall u :: u in AddFlags(flags, texts) <==>
      u in flags || exists i :: 0 <= i < |texts| && u == StripFlag(texts[i])
  {
    AddFlagsGrows(flags, texts);
    forall u
      ensures u in AddFlags(flags, texts) <==>
        u in flags || exists i :: 0 <= i < |texts| && u == StripFlag(texts[i])
    {
      AddFlagsMembership(flags, texts, u);
    }
  }

  /**
   * A flag element whose text is `FLAG: ` and then a value holding no
   * further `FLAG: ` adds that value, and a second identical element adds
   * nothing more.
   */
  lemma FlagElementTwice(flags: seq<string>, value: string)
    requires !Contains(value, FlagPrefix)
    ensures AddFlags(flags, [FlagPrefix + value, FlagPrefix + value])
      == if value in flags then flags else flags + [value]
  {
    ReplacePrefix(FlagPrefix, value);
    var text := FlagPrefix + value;
    var texts := [text, text];
    assert texts[..1] == [text];
    assert [text][..0] == [];
    var once := AddFlag(flags, text);
    assert AddFlags(flags, [text]) == once;
    assert value in once;
    assert AddFlags(flags, texts) == AddFlag(once, text) == once;
  }
}
