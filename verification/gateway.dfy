/** The main loop: feed entries, oldest first, are posted unless their link
    has been processed before or they are not newer than the cutoff; a link
    is recorded once its post has been created. */
module Gateway {
  import opened Wrappers
  import opened Atproto
  import opened Network
  import Publish
  import Shorten

  /** A feed entry, its description already stripped of tags; `updated` is
      the entry's update time on the scale of the cutoff. */
  datatype Item = Item(title: string, link: string, description: string, updated: int)

  /** What one run depends on besides the feed and the store: the cutoff one
      week before now, the class `\w`, and `create_post` for a text. */
  datatype Config = Config(cutoff: int, isWord: char -> bool, createPost: string -> Result<Post, Fatal>)

  /** The entry whose post failed, with the exception that ended the run. */
  datatype Failed = Failed(item: Item, error: Fatal)

  /** The store of processed links, the entries posted so far, and how the
      run ended if it ended early. */
  datatype RunState = RunState(processed: set<string>, posted: seq<Item>, failure: Option<Failed>)

  /** `reversed(entries)`. */
  function Reverse(s: seq<Item>): (r: seq<Item>)
    ensures |r| == |s|
    ensures forall k :: 0 <= k < |s| ==> r[k] == s[|s| - 1 - k]
  {
    if |s| == 0 then [] else [s[|s| - 1]] + Reverse(s[..|s| - 1])
  }

  predicate Fresh(item: Item, cutoff: int) {
    item.updated > cutoff
  }

  /** The text `create_post` is given for an entry. */
  function ItemText(item: Item, isWord: char -> bool): string {
    Shorten.PostText(item.title,
                     Shorten.ShortDescription(item.title, item.link, item.description, isWord),
                     item.link)
  }

  function PostItem(item: Item, cfg: Config): Result<Post, Fatal> {
    cfg.createPost(ItemText(item, cfg.isWord))
  }

  /** One iteration of the loop: an entry that is stored or not fresh is
      skipped; otherwise its post is created and its link stored, or the
      failure is recorded and nothing is stored. */
  function Step(s: RunState, item: Item, cfg: Config): (r: RunState)
    ensures r.posted == s.posted || r.posted == s.posted + [item]
    ensures r.posted != s.posted <==>
              item.link !in s.processed && Fresh(item, cfg.cutoff) && PostItem(item, cfg).Success?
    ensures r.processed == s.processed + (if r.posted == s.posted then {} else {item.link})
    ensures s.failure.None? ==>
              (r.failure.Some? <==>
                 item.link !in s.processed && Fresh(item, cfg.cutoff) && PostItem(item, cfg).Failure?)
    ensures r.failure != s.failure ==>
              PostItem(item, cfg).Failure? && r.failure == Some(Failed(item, PostItem(item, cfg).error))
  {
    if item.link in s.processed || !Fresh(item, cfg.cutoff) then s
    else
      match PostItem(item, cfg)
      case Success(_) => s.(processed := s.processed + {item.link}, posted := s.posted + [item])
      case Failure(e) => s.(failure := Some(Failed(item, e)))
  }

  /** The loop over `queue`, starting from the store `processed0`; once a
      post fails, nothing further happens. */
  function Visit(queue: seq<Item>, processed0: set<string>, cfg: Config): (r: RunState)
    ensures processed0 <= r.processed
    ensures |r.posted| <= |queue|
    ensures forall i :: 0 <= i < |r.posted| ==>
              && r.posted[i] in queue
              && r.posted[i].link in r.processed
              && r.posted[i].link !in processed0
    ensures forall i, j :: 0 <= i < j < |r.posted| ==> r.posted[i].link != r.posted[j].link
    ensures r.failure.Some? ==> r.failure.value.item in queue
  {
    if |queue| == 0 then RunState(processed0, [], None)
    else
      var p := queue[..|queue| - 1];
      var s := Visit(p, processed0, cfg);
      assert forall x :: x in p ==> x in queue;
      if s.failure.Some? then s
      else
        var r := Step(s, queue[|queue| - 1], cfg);
        assert forall i :: 0 <= i < |s.posted| ==> r.posted[i] == s.posted[i];
        r
  }

  /** The reversed entries are the entries. */
  lemma ReverseMembers(s: seq<Item>)
    ensures forall x :: x in Reverse(s) <==> x in s
  {
  }

  /** A run over the feed's entries, visited in reverse feed order. */
  function Run(entries: seq<Item>, processed0: set<string>, cfg: Config): (r: RunState)
    ensures processed0 <= r.processed
    ensures |r.posted| <= |entries|
    ensures forall i :: 0 <= i < |r.posted| ==>
              && r.posted[i] in entries
              && r.posted[i].link in r.processed
              && r.posted[i].link !in processed0
    ensures forall i, j :: 0 <= i < j < |r.posted| ==> r.posted[i].link != r.posted[j].link
    ensures r.failure.Some? ==> r.failure.value.item in entries
  {
    ReverseMembers(entries);
    Visit(Reverse(entries), processed0, cfg)
  }

  /** The configuration of the script: every post created by `create_post`
      stamped `createdAt`. */
  function GatewayConfig(cutoff: int, createdAt: string, isWord: char -> bool, net: Net): Config {
    Config(cutoff, isWord, text => Publish.CreatePost(text, createdAt, net))
  }

  /** The run as the script performs it: every entry it posts had its
      record created. */
  function GatewayRun(entries: seq<Item>, processed0: set<string>, cutoff: int, createdAt: string,
                      isWord: char -> bool, net: Net): (r: RunState)
    ensures forall i :: 0 <= i < |r.posted| ==> Created(r.posted[i], createdAt, isWord, net)
  {
    GatewayPostsCreated(entries, processed0, cutoff, createdAt, isWord, net);
    Run(entries, processed0, GatewayConfig(cutoff, createdAt, isWord, net))
  }

  // A reference definition of what a run posts, without any store.

  /** The entry at `k` is the first fresh one with its link, and that link
      was not processed before the run. */
  predicate IsNew(q: seq<Item>, k: nat, processed0: set<string>, cutoff: int)
    requires k < |q|
  {
    && Fresh(q[k], cutoff)
    && q[k].link !in processed0
    && forall j :: 0 <= j < k ==> !(Fresh(q[j], cutoff) && q[j].link == q[k].link)
  }

  /** The new entries of `q`, in order. */
  function NewItems(q: seq<Item>, processed0: set<string>, cutoff: int): seq<Item> {
    if |q| == 0 then []
    else
      NewItems(q[..|q| - 1], processed0, cutoff) +
      (if IsNew(q, |q| - 1, processed0, cutoff) then [q[|q| - 1]] else [])
  }

  function LinkSet(items: seq<Item>): set<string> {
    set i | 0 <= i < |items| :: items[i].link
  }

  function FreshLinks(q: seq<Item>, cutoff: int): set<string> {
    set j | 0 <= j < |q| && Fresh(q[j], cutoff) :: q[j].link
  }

  lemma LinkSetSnoc(s: seq<Item>, x: Item)
    ensures LinkSet(s + [x]) == LinkSet(s) + {x.link}
  {
    var t := s + [x];
    assert forall i :: 0 <= i < |s| ==> t[i] == s[i];
    assert t[|s|] == x;
  }

  lemma FreshLinksSnoc(q: seq<Item>, cutoff: int)
    requires |q| > 0
    ensures var p := q[..|q| - 1];
            var x := q[|q| - 1];
            FreshLinks(q, cutoff) == FreshLinks(p, cutoff) + (if Fresh(x, cutoff) then {x.link} else {})
  {
    var p := q[..|q| - 1];
    assert forall j :: 0 <= j < |p| ==> p[j] == q[j];
    forall l | l in FreshLinks(q, cutoff)
      ensures l in FreshLinks(p, cutoff) || (Fresh(q[|q| - 1], cutoff) && l == q[|q| - 1].link)
    {
      var j :| 0 <= j < |q| && Fresh(q[j], cutoff) && q[j].link == l;
      if j < |p| {
        assert p[j] == q[j];
      }
    }
  }

  /** Each new entry comes from the queue, is fresh, and its link was not
      processed before the run. */
  lemma {:induction false} NewItemsMembers(q: seq<Item>, processed0: set<string>, cutoff: int)
    ensures var ns := NewItems(q, processed0, cutoff);
            forall i :: 0 <= i < |ns| ==>
              ns[i] in q && Fresh(ns[i], cutoff) && ns[i].link !in processed0
  {
    if |q| > 0 {
      var p := q[..|q| - 1];
      NewItemsMembers(p, processed0, cutoff);
      var prev := NewItems(p, processed0, cutoff);
      assert var ns := NewItems(p, processed0, cutoff);
        forall i :: 0 <= i < |ns| ==> ns[i] in p && Fresh(ns[i], cutoff) && ns[i].link !in processed0;
      var ns := NewItems(q, processed0, cutoff);
      assert forall i :: 0 <= i < |prev| ==> ns[i] == prev[i];
      forall i | 0 <= i < |prev| ensures prev[i] in q {
        assert prev[i] in p;
        var j :| 0 <= j < |p| && p[j] == prev[i];
        assert q[j] == p[j];
      }
      if IsNew(q, |q| - 1, processed0, cutoff) {
        assert ns == prev + [q[|q| - 1]];
        assert ns[|prev|] == q[|q| - 1];
      } else {
        assert ns == prev;
      }
    }
  }

  /** No two new entries share a link. */
  lemma {:induction false} NewItemsDistinct(q: seq<Item>, processed0: set<string>, cutoff: int)
    ensures var ns := NewItems(q, processed0, cutoff);
            forall i, j :: 0 <= i < j < |ns| ==> ns[i].link != ns[j].link
  {
    if |q| > 0 {
      var p := q[..|q| - 1];
      var x := q[|q| - 1];
      NewItemsDistinct(p, processed0, cutoff);
      NewItemsMembers(p, processed0, cutoff);
      var prev := NewItems(p, processed0, cutoff);
      assert var ns := NewItems(p, processed0, cutoff);
        forall i :: 0 <= i < |ns| ==> ns[i] in p && Fresh(ns[i], cutoff) && ns[i].link !in processed0;
      assert var ns := NewItems(p, processed0, cutoff);
        forall i, j :: 0 <= i < j < |ns| ==> ns[i].link != ns[j].link;
      if IsNew(q, |q| - 1, processed0, cutoff) {
        var ns := prev + [x];
        assert NewItems(q, processed0, cutoff) == ns;
        forall i | 0 <= i < |prev|
          ensures prev[i].link != x.link
        {
          var j :| 0 <= j < |p| && p[j] == prev[i];
          assert q[j] == p[j];
        }
        assert forall i :: 0 <= i < |prev| ==> ns[i] == prev[i];
      }
    }
  }

  /** Together with the old store, the new entries' links are exactly the
      fresh links. */
  lemma {:induction false} NewItemsCover(q: seq<Item>, processed0: set<string>, cutoff: int)
    ensures processed0 + LinkSet(NewItems(q, processed0, cutoff)) == processed0 + FreshLinks(q, cutoff)
  {
    if |q| > 0 {
      var p := q[..|q| - 1];
      var x := q[|q| - 1];
      NewItemsCover(p, processed0, cutoff);
      FreshLinksSnoc(q, cutoff);
      var prev := NewItems(p, processed0, cutoff);
      if IsNew(q, |q| - 1, processed0, cutoff) {
        assert NewItems(q, processed0, cutoff) == prev + [x];
        LinkSetSnoc(prev, x);
      } else {
        assert NewItems(q, processed0, cutoff) == prev;
        if Fresh(x, cutoff) && x.link !in processed0 {
          var j :| 0 <= j < |q| - 1 && Fresh(q[j], cutoff) && q[j].link == x.link;
          assert p[j] == q[j];
          assert x.link in FreshLinks(p, cutoff);
        }
      }
    }
  }

  /** The new entries account for every fresh link that was not processed
      before; each is fresh, unprocessed, and none shares its link. */
  lemma NewItemsLinks(q: seq<Item>, processed0: set<string>, cutoff: int)
    ensures processed0 + LinkSet(NewItems(q, processed0, cutoff)) == processed0 + FreshLinks(q, cutoff)
    ensures var ns := NewItems(q, processed0, cutoff);
            forall i :: 0 <= i < |ns| ==>
              ns[i] in q && Fresh(ns[i], cutoff) && ns[i].link !in processed0
    ensures var ns := NewItems(q, processed0, cutoff);
            forall i, j :: 0 <= i < j < |ns| ==> ns[i].link != ns[j].link
  {
    NewItemsCover(q, processed0, cutoff);
    NewItemsMembers(q, processed0, cutoff);
    NewItemsDistinct(q, processed0, cutoff);
  }

  /** The outcome `r` of a loop agrees with the new entries `ns`: a
      completed loop posted exactly them; a failed one posted a prefix of
      them, and the next one is the entry whose post failed; the store is the
      old store plus the posted links; every posted entry's post was
      created. */
  predicate Agrees(r: RunState, ns: seq<Item>, processed0: set<string>, cfg: Config) {
    && r.processed == processed0 + LinkSet(r.posted)
    && (r.failure.None? ==> r.posted == ns)
    && (r.failure.Some? ==>
          && r.posted + [r.failure.value.item] <= ns
          && PostItem(r.failure.value.item, cfg) == Failure(r.failure.value.error))
    && forall i :: 0 <= i < |r.posted| ==> PostItem(r.posted[i], cfg).Success?
  }

  /** The loop posts exactly the new entries, in order, unless a post fails:
      then it has posted a prefix of them and the next new entry is the one
      that failed.  The store is the old store plus the posted links. */
  lemma {:induction false} VisitMatchesReference(q: seq<Item>, processed0: set<string>, cfg: Config)
    ensures Agrees(Visit(q, processed0, cfg), NewItems(q, processed0, cfg.cutoff), processed0, cfg)
  {
    if |q| > 0 {
      VisitMatchesReference(q[..|q| - 1], processed0, cfg);
      VisitStep(q, processed0, cfg);
    }
  }

  /** A fresh entry's link is stored after the earlier entries exactly when
      the entry is not new. */
  lemma StoredIffNotNew(q: seq<Item>, processed0: set<string>, cutoff: int)
    requires |q| > 0 && Fresh(q[|q| - 1], cutoff)
    ensures q[|q| - 1].link in processed0 + FreshLinks(q[..|q| - 1], cutoff)
            <==> !IsNew(q, |q| - 1, processed0, cutoff)
  {
    var p := q[..|q| - 1];
    var x := q[|q| - 1];
    assert forall j :: 0 <= j < |p| ==> p[j] == q[j];
    if x.link in FreshLinks(p, cutoff) {
      var j :| 0 <= j < |p| && Fresh(p[j], cutoff) && p[j].link == x.link;
      assert q[j] == p[j];
    }
    assert forall j :: 0 <= j < |p| && Fresh(p[j], cutoff) ==> p[j].link in FreshLinks(p, cutoff);
  }

  /** One iteration keeps the loop in agreement with the new entries. */
  lemma VisitStep(q: seq<Item>, processed0: set<string>, cfg: Config)
    requires |q| > 0
    requires Agrees(Visit(q[..|q| - 1], processed0, cfg), NewItems(q[..|q| - 1], processed0, cfg.cutoff), processed0, cfg)
    ensures Agrees(Visit(q, processed0, cfg), NewItems(q, processed0, cfg.cutoff), processed0, cfg)
  {
    var p := q[..|q| - 1];
    var x := q[|q| - 1];
    var s := Visit(p, processed0, cfg);
    var nsP := NewItems(p, processed0, cfg.cutoff);
    var isNew := IsNew(q, |q| - 1, processed0, cfg.cutoff);
    assert NewItems(q, processed0, cfg.cutoff) == nsP + (if isNew then [x] else []);
    if s.failure.Some? {
      assert Visit(q, processed0, cfg) == s;
      assert nsP <= NewItems(q, processed0, cfg.cutoff);
    } else {
      assert Visit(q, processed0, cfg) == Step(s, x, cfg);
      assert s.processed == processed0 + FreshLinks(p, cfg.cutoff) by {
        NewItemsCover(p, processed0, cfg.cutoff);
      }
      if Fresh(x, cfg.cutoff) {
        StoredIffNotNew(q, processed0, cfg.cutoff);
      }
      StepAgrees(s, x, nsP, isNew, processed0, cfg);
    }
  }

  /** A step from a completed loop that posted exactly `ns` agrees with
      `ns` extended by the entry when the entry is new, and otherwise with
      `ns`; an entry is new exactly when it is fresh and unstored. */
  lemma StepAgrees(s: RunState, x: Item, ns: seq<Item>, isNew: bool, processed0: set<string>, cfg: Config)
    requires Agrees(s, ns, processed0, cfg) && s.failure.None?
    requires isNew <==> Fresh(x, cfg.cutoff) && x.link !in s.processed
    ensures Agrees(Step(s, x, cfg), ns + (if isNew then [x] else []), processed0, cfg)
  {
    var r := Step(s, x, cfg);
    if !isNew {
      assert r == s;
      assert ns + [] == ns;
    } else if PostItem(x, cfg).Success? {
      assert r.posted == s.posted + [x];
      LinkSetSnoc(s.posted, x);
      assert forall i :: 0 <= i < |s.posted| ==> r.posted[i] == s.posted[i];
    } else {
      assert r == s.(failure := Some(Failed(x, PostItem(x, cfg).error)));
    }
  }

  /** What one run guarantees about the store and the posts: the store only
      grows, by the posted links; a link is posted at most once and never
      when it was already stored; every posted entry is fresh, comes from the
      feed, and had its post created; a failed entry is not stored. */
  lemma RunInvariants(entries: seq<Item>, processed0: set<string>, cfg: Config)
    ensures var r := Run(entries, processed0, cfg);
            && processed0 <= r.processed
            && r.processed == processed0 + LinkSet(r.posted)
            && (forall i, j :: 0 <= i < j < |r.posted| ==> r.posted[i].link != r.posted[j].link)
            && (forall i :: 0 <= i < |r.posted| ==>
                  && r.posted[i].link !in processed0
                  && r.posted[i] in entries
                  && Fresh(r.posted[i], cfg.cutoff)
                  && PostItem(r.posted[i], cfg).Success?)
            && (r.failure.Some? ==> r.failure.value.item.link !in r.processed)
  {
    var q := Reverse(entries);
    VisitMatchesReference(q, processed0, cfg);
    NewItemsLinks(q, processed0, cfg.cutoff);
    AgreedFacts(Visit(q, processed0, cfg), NewItems(q, processed0, cfg.cutoff), q, processed0, cfg);
    ReverseMembers(entries);
  }

  /** What agreement with the new entries of `q` says about a loop's
      outcome. */
  lemma AgreedFacts(r: RunState, ns: seq<Item>, q: seq<Item>, processed0: set<string>, cfg: Config)
    requires Agrees(r, ns, processed0, cfg)
    requires forall i :: 0 <= i < |ns| ==> ns[i] in q && Fresh(ns[i], cfg.cutoff) && ns[i].link !in processed0
    requires forall i, j :: 0 <= i < j < |ns| ==> ns[i].link != ns[j].link
    ensures processed0 <= r.processed
    ensures r.processed == processed0 + LinkSet(r.posted)
    ensures forall i, j :: 0 <= i < j < |r.posted| ==> r.posted[i].link != r.posted[j].link
    ensures forall i :: 0 <= i < |r.posted| ==>
              && r.posted[i].link !in processed0
              && r.posted[i] in q
              && Fresh(r.posted[i], cfg.cutoff)
              && PostItem(r.posted[i], cfg).Success?
    ensures r.failure.Some? ==> r.failure.value.item.link !in r.processed
  {
    assert forall i :: 0 <= i < |r.posted| ==> r.posted[i] == ns[i];
    if r.failure.Some? {
      var n := |r.posted|;
      assert ns[n] == r.failure.value.item;
      assert forall i :: 0 <= i < n ==> ns[i].link != ns[n].link;
    }
  }

  /** Running again over the same entries, after a run that completed and
      with a cutoff no earlier, posts nothing and leaves the store as it
      is. */
  lemma RerunPostsNothing(entries: seq<Item>, processed0: set<string>, cfg: Config, cfg2: Config)
    requires Run(entries, processed0, cfg).failure.None?
    requires cfg2.cutoff >= cfg.cutoff
    ensures var r1 := Run(entries, processed0, cfg);
            Run(entries, r1.processed, cfg2) == RunState(r1.processed, [], None)
  {
    var q := Reverse(entries);
    var r1 := Visit(q, processed0, cfg);
    VisitMatchesReference(q, processed0, cfg);
    NewItemsLinks(q, processed0, cfg.cutoff);
    assert r1.processed == processed0 + FreshLinks(q, cfg.cutoff);
    NoNewItems(q, r1.processed, cfg2.cutoff, cfg.cutoff);
    VisitMatchesReference(q, r1.processed, cfg2);
  }

  /** Nothing is new when every link fresh by `cutoff` is stored, and
      `cutoff` is no later than the cutoff that decides freshness. */
  lemma {:induction false} NoNewItems(q: seq<Item>, processed: set<string>, cutoff2: int, cutoff: int)
    requires cutoff2 >= cutoff
    requires FreshLinks(q, cutoff) <= processed
    ensures NewItems(q, processed, cutoff2) == []
  {
    if |q| > 0 {
      var p := q[..|q| - 1];
      assert FreshLinks(p, cutoff) <= processed by {
        forall l | l in FreshLinks(p, cutoff) ensures l in FreshLinks(q, cutoff) {
          var j :| 0 <= j < |p| && Fresh(p[j], cutoff) && p[j].link == l;
          assert q[j] == p[j];
        }
      }
      NoNewItems(p, processed, cutoff2, cutoff);
      if Fresh(q[|q| - 1], cutoff2) {
        assert q[|q| - 1].link in FreshLinks(q, cutoff);
      }
    }
  }

  /** Every entry the script posts had its record created: `create_post`
      returned, so `createRecord` answered with success for a post holding
      the entry's text. */
  lemma GatewayPostsCreated(entries: seq<Item>, processed0: set<string>, cutoff: int,
                            createdAt: string, isWord: char -> bool, net: Net)
    ensures var r := Run(entries, processed0, GatewayConfig(cutoff, createdAt, isWord, net));
            forall i :: 0 <= i < |r.posted| ==> Created(r.posted[i], createdAt, isWord, net)
  {
    var cfg := GatewayConfig(cutoff, createdAt, isWord, net);
    var r := Run(entries, processed0, cfg);
    RunInvariants(entries, processed0, cfg);
    forall i | 0 <= i < |r.posted|
      ensures Created(r.posted[i], createdAt, isWord, net)
    {
      var t := ItemText(r.posted[i], isWord);
      assert PostItem(r.posted[i], cfg) == Publish.CreatePost(t, createdAt, net);
    }
  }

  /** `create_post` returned for the entry's text: the login succeeded and
      `createRecord` accepted a post holding that text in the session's
      repository. */
  predicate Created(item: Item, createdAt: string, isWord: char -> bool, net: Net) {
    var text := ItemText(item, isWord);
    var post := Publish.CreatePost(text, createdAt, net);
    && post.Success?
    && post.value.text == text
    && net.login.Session?
    && net.createRecord(CreateRecord(net.login.did, PostType, post.value)).Published?
  }
}
