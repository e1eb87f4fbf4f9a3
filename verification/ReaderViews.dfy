/** A reader's cursor over the pages on disk finds the tree of the moment the reader began, as long as it is open. */
module ReaderViews {
  import opened Common
  import opened Keys
  import opened Trees
  import opened Cursors
  import opened StoreInvariant
  import opened StoreTheorems
  import S = Store

  /** How pages are read: the page ids an element shows are children of its block. */
  ghost predicate Decodes(read: S.Block -> Element) {
    forall b: S.Block, k: nat :: ReadsId(read, b, k) ==> read(b).kids[k].1 in S.Children(b)
  }

  ghost predicate ReadsId(read: S.Block -> Element, b: S.Block, k: nat) {
    read(b).BranchElement? && k < |read(b).kids|
  }

  /** The root bucket as a transaction with this meta sees it: no cached node, no buffered page. */
  function View(disk: map<nat, S.Block>, meta: S.Meta, read: S.Block -> Element): BucketView {
    BucketView(meta.root, None, None, map[], TxView(meta.total, map[], map p | p in disk :: read(disk[p])))
  }

  ghost predicate Shows(b: BucketView, image: map<nat, S.Block>, read: S.Block -> Element) {
    forall p :: p in image ==> b.GetPageNode(p) == Some(read(image[p]))
  }

  /** Two views that agree on a closed set of pages show the same trees in it. */
  lemma {:induction false} SameTree(a: BucketView, b: BucketView, image: map<nat, S.Block>, read: S.Block -> Element,
                                    id: nat, t: Tree)
    requires Decodes(read) && S.Closed(image, image.Keys) && Shows(a, image, read) && Shows(b, image, read) && id in image
    ensures Represents(a, id, t) <==> Represents(b, id, t)
    decreases t
  {
    if t.Branch? && read(image[id]) == Shape(t) {
      forall i | 0 <= i < |t.kids| ensures Represents(a, t.kids[i].id, t.kids[i].tree) <==> Represents(b, t.kids[i].id, t.kids[i].tree) {
        assert ReadsId(read, image[id], i) && read(image[id]).kids[i].1 == t.kids[i].id;
        assert S.Child(image, id, t.kids[i].id);
        SameTree(a, b, image, read, t.kids[i].id, t.kids[i].tree);
      }
    }
  }

  /** Following page ids leads to one tree only. */
  lemma {:induction false} TreeUnique(b: BucketView, id: nat, t: Tree, t': Tree)
    requires Represents(b, id, t) && Represents(b, id, t')
    ensures t == t'
    decreases t
  {
    assert Shape(t) == Shape(t');
    if t.Branch? {
      forall i | 0 <= i < |t.kids| ensures t.kids[i] == t'.kids[i] {
        assert Shape(t).kids[i] == Shape(t').kids[i];
        TreeUnique(b, t.kids[i].id, t.kids[i].tree, t'.kids[i].tree);
      }
      assert t.kids == t'.kids;
    }
  }

  lemma LiveImage(s: S.State)
    requires S.Inv(s)
    ensures S.Readable(s)
    ensures var image := S.Restrict(s.disk, s.live);
            && S.Closed(image, image.Keys) && image.Keys == s.live && S.Committed(s).root in image
            && S.Committed(s).root > 0 && (forall p :: p in image ==> p < S.Committed(s).total)
  {
    RestrictImage(s.disk, s.live);
    assert S.Committed(s).root in S.Universe(S.Committed(s).total);
    assert forall p :: p in s.live ==> p in S.Universe(S.Committed(s).total);
  }

  lemma ViewShows(disk: map<nat, S.Block>, meta: S.Meta, read: S.Block -> Element, image: map<nat, S.Block>)
    requires S.Intact(disk, image) && meta.root > 0 && forall p :: p in image ==> p < meta.total
    ensures Shows(View(disk, meta, read), image, read)
  {
  }

  lemma ReaderMeta(states: seq<S.State>, steps: seq<S.Step>, i: nat, j: nat, r: nat)
    requires S.Run(states, steps) && i < j < |states| && steps[i] == S.DoBeginReader(r)
    requires forall k :: i < k <= j ==> r in states[k].readers
    ensures S.Readable(states[i]) && states[j].readers[r].meta == S.Committed(states[i])
    ensures S.Intact(states[j].disk, S.Restrict(states[i].disk, states[i].live))
  {
    hide S.Inv, S.Closed, S.Intact;
    RunStep(states, steps, i);
    ReaderPersists(states, steps, i + 1, j, r);
    assert r in states[i + 1].readers;
    SnapshotIsolation(states, steps, i, j, r);
    IntactFrom(states[i], states[j].disk);
  }

  lemma IntactFrom(s: S.State, disk: map<nat, S.Block>)
    requires forall p :: p in s.live ==> p in s.disk && p in disk && disk[p] == s.disk[p]
    ensures S.Intact(disk, S.Restrict(s.disk, s.live))
  {
  }

  /** A tree is what an open reader finds at any later state if and only if it is what was committed when it began. */
  lemma ReaderTreeStays(states: seq<S.State>, steps: seq<S.Step>, i: nat, j: nat, r: nat, read: S.Block -> Element, t: Tree)
    requires S.Run(states, steps) && i < j < |states| && steps[i] == S.DoBeginReader(r)
    requires forall k :: i < k <= j ==> r in states[k].readers
    requires Decodes(read)
    ensures S.Readable(states[i])
    ensures var c, m := S.Committed(states[i]), states[j].readers[r].meta;
            Represents(View(states[i].disk, c, read), c.root, t) <==> Represents(View(states[j].disk, m, read), m.root, t)
  {
    hide S.Run, S.Inv, S.Closed, S.Intact, Shows, Represents, Decodes, View;
    RunKeeps(states, steps, i);
    ReaderMeta(states, steps, i, j, r);
    LiveImage(states[i]);
    var c, image := S.Committed(states[i]), S.Restrict(states[i].disk, states[i].live);
    ImageIntact(states[i]);
    ViewShows(states[i].disk, c, read, image);
    ViewShows(states[j].disk, c, read, image);
    SameTree(View(states[i].disk, c, read), View(states[j].disk, c, read), image, read, c.root, t);
  }

  lemma ImageIntact(s: S.State)
    ensures S.Intact(s.disk, S.Restrict(s.disk, s.live))
  {
  }

  /** `for_each` over the disk of a later state visits the entries that were committed when the reader began, once and
      in order. `view` is that disk as the reader sees it. */
  method ReadLater(view: BucketView, ghost states: seq<S.State>, ghost steps: seq<S.Step>, ghost i: nat, ghost j: nat,
                   ghost r: nat, ghost read: S.Block -> Element, ghost t: Tree)
    returns (visited: seq<Entry>)
    requires S.Run(states, steps) && i < j < |states| && steps[i] == S.DoBeginReader(r)
    requires forall k :: i < k <= j ==> r in states[k].readers
    requires Decodes(read) && view == View(states[j].disk, states[j].readers[r].meta, read)
    requires S.Readable(states[i]) && Full(t) && NoEmptyKey(Flatten(t))
    requires var c := S.Committed(states[i]); Represents(View(states[i].disk, c, read), c.root, t)
    ensures visited == Flatten(t)
  {
    hide S.Run, S.Committed, Represents, Decodes, Full, Flatten, NeverStops;
    ReaderTreeStays(states, steps, i, j, r, read, t);
    var c := new Cursor(view, t);
    var ret;
    AlwaysZero(Flatten(t));
    ret, visited := c.ForEach(Zero);
  }

  function Zero(k: Bytes, v: Bytes): int {
    0
  }

  lemma AlwaysZero(entries: seq<Entry>)
    ensures NeverStops(entries, Zero)
  {
  }
}
