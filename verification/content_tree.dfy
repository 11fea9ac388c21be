/**
 * Article content: a tree of editor nodes. Image extraction, in-place url replacement and the
 * scrubbing of base64 urls all walk the same tree in different ways.
 */
module ContentTree {
  import opened Wrappers

  /** A `children` property: absent, `null`, or an array. */
  datatype Children<T> = Missing | Null | List(nodes: seq<T>)

  /** One editor node; `attributes` holds its other own properties, each with the JSON text of its value. */
  datatype Node = Node(
    kind: Option<string>,
    id: Option<string>,
    url: Option<string>,
    children: Children<Node>,
    attributes: map<string, string>)

  datatype Image = Image(plateId: Option<string>, url: string)

  /** A replacement keeps the id of the image it was made for, which may have had none. */
  datatype Replacement = Replacement(plateId: Option<string>, url: string)

  /** What the rewrites look at in a node. */
  datatype Tag = Tag(kind: Option<string>, id: Option<string>, url: Option<string>)

  /** The two url rewrites the service applies. */
  datatype Rule = FirstMatch(replaceList: seq<Replacement>) | DropDataUrls

  function TagOf(node: Node): Tag {
    Tag(node.kind, node.id, node.url)
  }

  predicate IsImage(tag: Tag) {
    tag.kind == Some("img")
  }

  /** JavaScript truthiness of `url`. */
  predicate HasUrl(tag: Tag) {
    tag.url.Some? && tag.url.value != ""
  }

  predicate IsDataUrl(tag: Tag) {
    tag.url.Some? && "data" <= tag.url.value
  }

  /** The first replacement listed for the id; one without an id fits any node without an id. */
  function Find(replaceList: seq<Replacement>, id: Option<string>): (r: Option<Replacement>)
    ensures r.None? ==> forall x :: x in replaceList ==> x.plateId != id
    ensures r.Some? ==> exists k :: 0 <= k < |replaceList| && replaceList[k] == r.value && r.value.plateId == id
                                    && forall j :: 0 <= j < k ==> replaceList[j].plateId != id
  {
    if replaceList == [] then None
    else if replaceList[0].plateId == id then Some(replaceList[0])
    else
      var rest := Find(replaceList[1..], id);
      assert forall j :: 0 < j < |replaceList| ==> replaceList[j] == replaceList[1..][j - 1];
      rest
  }

  /** The url a node has after the rewrite. */
  function NewUrl(rule: Rule, tag: Tag): Option<string> {
    match rule
    case FirstMatch(replaceList) =>
      if IsImage(tag) && Find(replaceList, tag.id).Some?
      then Some(Find(replaceList, tag.id).value.url)
      else tag.url
    case DropDataUrls =>
      if IsImage(tag) && IsDataUrl(tag) then Some("") else tag.url
  }

  function Retag(rule: Rule, tag: Tag): Tag {
    tag.(url := NewUrl(rule, tag))
  }

  // ---------- The reference: one map over every node at every depth ----------

  function MapUrls(node: Node, rule: Rule): Node {
    Node(node.kind, node.id, NewUrl(rule, TagOf(node)),
         match node.children
         case List(nodes) => List(MapAll(nodes, rule))
         case other => other,
         node.attributes)
  }

  function MapAll(nodes: seq<Node>, rule: Rule): (r: seq<Node>)
    ensures |r| == |nodes|
    ensures forall i :: 0 <= i < |nodes| ==> r[i] == MapUrls(nodes[i], rule)
  {
    if nodes == [] then []
    else MapAll(nodes[..|nodes| - 1], rule) + [MapUrls(nodes[|nodes| - 1], rule)]
  }

  /** The tags of all nodes in document order (a node before its children). */
  function Tags(node: Node): seq<Tag> {
    [TagOf(node)] + if node.children.List? then TagsOf(node.children.nodes) else []
  }

  function TagsOf(nodes: seq<Node>): seq<Tag> {
    if nodes == [] then []
    else TagsOf(nodes[..|nodes| - 1]) + Tags(nodes[|nodes| - 1])
  }

  /** The tree without its image urls: everything a rewrite must leave alone. */
  function Shape(node: Node): Node {
    Node(node.kind, node.id,
         if IsImage(TagOf(node)) then None else node.url,
         match node.children
         case List(nodes) => List(Shapes(nodes))
         case other => other,
         node.attributes)
  }

  function Shapes(nodes: seq<Node>): (r: seq<Node>) {
    if nodes == [] then []
    else Shapes(nodes[..|nodes| - 1]) + [Shape(nodes[|nodes| - 1])]
  }

  /** Shape and tags together are the content: besides the image urls a shape forgets nothing. */
  lemma {:induction false} ShapeAndTagsDecide(a: Node, b: Node)
    requires Shape(a) == Shape(b) && Tags(a) == Tags(b)
    ensures a == b
  {
    assert TagOf(a) == Tags(a)[0] == Tags(b)[0] == TagOf(b);
    if a.children.List? {
      assert Tags(a)[1..] == TagsOf(a.children.nodes) && Tags(b)[1..] == TagsOf(b.children.nodes);
      ShapesAndTagsDecide(a.children.nodes, b.children.nodes);
    }
  }

  /** Equal shapes have equally many nodes. */
  lemma {:induction false} ShapeCounts(a: Node, b: Node)
    requires Shape(a) == Shape(b)
    ensures |Tags(a)| == |Tags(b)|
  {
    if a.children.List? {
      ShapesCount(a.children.nodes, b.children.nodes);
    }
  }

  lemma {:induction false} ShapesCount(a: seq<Node>, b: seq<Node>)
    requires Shapes(a) == Shapes(b)
    ensures |a| == |b| && |TagsOf(a)| == |TagsOf(b)|
  {
    ShapesSplit(a, b);
    if a != [] && b != [] {
      ShapesCount(a[..|a| - 1], b[..|b| - 1]);
      ShapeCounts(a[|a| - 1], b[|b| - 1]);
    }
  }

  lemma ShapesSplit(a: seq<Node>, b: seq<Node>)
    requires Shapes(a) == Shapes(b)
    ensures a == [] <==> b == []
    ensures a != [] && b != [] ==>
              Shapes(a[..|a| - 1]) == Shapes(b[..|b| - 1]) && Shape(a[|a| - 1]) == Shape(b[|b| - 1])
  {
    if a != [] && b != [] {
      var s := Shapes(a);
      assert s[..|s| - 1] == Shapes(a[..|a| - 1]) && s[|s| - 1] == Shape(a[|a| - 1]);
      assert s[..|s| - 1] == Shapes(b[..|b| - 1]) && s[|s| - 1] == Shape(b[|b| - 1]);
    }
  }

  lemma {:induction false} ShapesAndTagsDecide(a: seq<Node>, b: seq<Node>)
    requires Shapes(a) == Shapes(b) && TagsOf(a) == TagsOf(b)
    ensures a == b
  {
    ShapesSplit(a, b);
    if a != [] && b != [] {
      var a0, b0, x, y := a[..|a| - 1], b[..|b| - 1], a[|a| - 1], b[|b| - 1];
      ShapesCount(a0, b0);
      TagsSplit(TagsOf(a0), Tags(x), TagsOf(b0), Tags(y));
      ShapesAndTagsDecide(a0, b0);
      ShapeAndTagsDecide(x, y);
      SameParts(a, b);
    }
  }

  lemma SameParts(a: seq<Node>, b: seq<Node>)
    requires a != [] && b != [] && a[..|a| - 1] == b[..|b| - 1] && a[|a| - 1] == b[|b| - 1]
    ensures a == b
  {
    assert a == a[..|a| - 1] + [a[|a| - 1]] && b == b[..|b| - 1] + [b[|b| - 1]];
  }

  lemma TagsSplit(a: seq<Tag>, x: seq<Tag>, b: seq<Tag>, y: seq<Tag>)
    requires a + x == b + y && |a| == |b|
    ensures a == b && x == y
  {
    assert (a + x)[..|a|] == a && (b + y)[..|b|] == b;
    assert (a + x)[|a|..] == x && (b + y)[|b|..] == y;
  }

  function RetagAll(tags: seq<Tag>, rule: Rule): (r: seq<Tag>)
    ensures |r| == |tags|
    ensures forall i :: 0 <= i < |tags| ==> r[i] == Retag(rule, tags[i])
  {
    seq(|tags|, i requires 0 <= i < |tags| => Retag(rule, tags[i]))
  }

  lemma RetagFirst(first: Tag, rest: seq<Tag>, rule: Rule)
    ensures RetagAll([first] + rest, rule) == [Retag(rule, first)] + RetagAll(rest, rule)
  {
  }

  lemma RetagConcat(a: seq<Tag>, b: seq<Tag>, rule: Rule)
    ensures RetagAll(a + b, rule) == RetagAll(a, rule) + RetagAll(b, rule)
  {
  }

  lemma {:induction false} MapRetags(node: Node, rule: Rule)
    ensures Tags(MapUrls(node, rule)) == RetagAll(Tags(node), rule)
  {
    if node.children.List? {
      RetagFirst(TagOf(node), TagsOf(node.children.nodes), rule);
      MapAllRetags(node.children.nodes, rule);
    }
  }

  /** The rewrite acts on every node exactly once and keeps document order. */
  lemma {:induction false} MapAllRetags(nodes: seq<Node>, rule: Rule)
    ensures TagsOf(MapAll(nodes, rule)) == RetagAll(TagsOf(nodes), rule)
  {
    if nodes != [] {
      var before, last := nodes[..|nodes| - 1], nodes[|nodes| - 1];
      MapAllRetags(before, rule);
      MapRetags(last, rule);
      RetagConcat(TagsOf(before), Tags(last), rule);
      assert MapAll(nodes, rule)[..|nodes| - 1] == MapAll(before, rule);
    }
  }

  lemma TagsAssociate(a: seq<Tag>, b: seq<Tag>, c: seq<Tag>)
    ensures (a + b) + c == a + (b + c)
  {
  }

  /** Lists are read in order, and a node comes before its descendants. */
  lemma {:induction false} TagsConcat(a: seq<Node>, b: seq<Node>)
    ensures TagsOf(a + b) == TagsOf(a) + TagsOf(b)
    decreases |b|
  {
    if b == [] {
      assert a + b == a;
    } else {
      var init, last := b[..|b| - 1], b[|b| - 1];
      assert (a + b)[..|a + b| - 1] == a + init;
      TagsConcat(a, init);
      TagsAssociate(TagsOf(a), TagsOf(init), Tags(last));
    }
  }

  /** What each rewrite does to each node of a content, in document order: scrubbing empties exactly the urls of images
      that start with "data"; a replacement gives an image the url of the first replacement listed for its id, and
      leaves every other url. */
  lemma UrlsAfter(nodes: seq<Node>, rule: Rule, k: nat)
    requires k < |TagsOf(nodes)|
    ensures |TagsOf(MapAll(nodes, rule))| == |TagsOf(nodes)|
    ensures var before, after := TagsOf(nodes)[k], TagsOf(MapAll(nodes, rule))[k];
            && after.kind == before.kind && after.id == before.id
            && (before.kind != Some("img") ==> after.url == before.url)
            && (rule.DropDataUrls? && before.kind == Some("img") ==>
                  if before.url.Some? && |before.url.value| >= 4 && before.url.value[..4] == "data"
                  then after.url == Some("") else after.url == before.url)
            && (rule.FirstMatch? && before.kind == Some("img") ==>
                  if forall x :: x in rule.replaceList ==> x.plateId != before.id then after.url == before.url
                  else exists i :: && 0 <= i < |rule.replaceList| && after.url == Some(rule.replaceList[i].url)
                                   && rule.replaceList[i].plateId == before.id
                                   && forall j :: 0 <= j < i ==> rule.replaceList[j].plateId != before.id)
  {
    MapAllRetags(nodes, rule);
  }

  lemma {:induction false} MapKeepsShape(node: Node, rule: Rule)
    ensures Shape(MapUrls(node, rule)) == Shape(node)
  {
    if node.children.List? {
      MapAllKeepsShapes(node.children.nodes, rule);
    }
  }

  lemma {:induction false} MapAllKeepsShapes(nodes: seq<Node>, rule: Rule)
    ensures Shapes(MapAll(nodes, rule)) == Shapes(nodes)
  {
    if nodes != [] {
      var before, last := nodes[..|nodes| - 1], nodes[|nodes| - 1];
      MapAllKeepsShapes(before, rule);
      MapKeepsShape(last, rule);
      assert MapAll(nodes, rule)[..|nodes| - 1] == MapAll(before, rule);
    }
  }

  lemma {:induction false} MapTwice(node: Node, rule: Rule)
    ensures MapUrls(MapUrls(node, rule), rule) == MapUrls(node, rule)
  {
    if node.children.List? {
      MapAllTwice(node.children.nodes, rule);
    }
  }

  lemma {:induction false} MapAllTwice(nodes: seq<Node>, rule: Rule)
    ensures MapAll(MapAll(nodes, rule), rule) == MapAll(nodes, rule)
  {
    forall i | 0 <= i < |nodes|
      ensures MapAll(MapAll(nodes, rule), rule)[i] == MapAll(nodes, rule)[i]
    {
      MapTwice(nodes[i], rule);
    }
  }

  // ---------- Image extraction ----------

  /** What one node contributes: an image with a url. */
  function OwnImage(tag: Tag): seq<Image> {
    if IsImage(tag) && HasUrl(tag) then [Image(tag.id, tag.url.value)] else []
  }

  /** The images of a list of nodes in document order. */
  function ImagesIn(tags: seq<Tag>): seq<Image> {
    if tags == [] then []
    else ImagesIn(tags[..|tags| - 1]) + OwnImage(tags[|tags| - 1])
  }

  lemma AppendAssociates(a: seq<Image>, b: seq<Image>, c: seq<Image>)
    ensures (a + b) + c == a + (b + c)
  {
  }

  lemma ImagesInAppend(a: seq<Tag>, last: Tag)
    ensures ImagesIn(a + [last]) == ImagesIn(a) + OwnImage(last)
  {
    assert (a + [last])[..|a|] == a;
  }

  lemma {:induction false} ImagesInConcat(a: seq<Tag>, b: seq<Tag>)
    ensures ImagesIn(a + b) == ImagesIn(a) + ImagesIn(b)
  {
    if b == [] {
      assert a + b == a;
    } else {
      var init, last := b[..|b| - 1], b[|b| - 1];
      ImagesInConcat(a, init);
      assert a + b == (a + init) + [last];
      ImagesInAppend(a + init, last);
      AppendAssociates(ImagesIn(a), ImagesIn(init), OwnImage(last));
    }
  }

  /** What `nodeToUrlImages` has pushed after `i` children. */
  ghost function Collected(own: seq<Image>, nodes: seq<Node>, i: nat): seq<Image>
    requires i <= |nodes|
  {
    own + ImagesIn(TagsOf(nodes[..i]))
  }

  lemma CollectedNext(own: seq<Image>, nodes: seq<Node>, i: nat)
    requires i < |nodes|
    ensures Collected(own, nodes, i + 1) == Collected(own, nodes, i) + ImagesIn(Tags(nodes[i]))
  {
    assert nodes[..i + 1][..i] == nodes[..i];
    ImagesInConcat(TagsOf(nodes[..i]), Tags(nodes[i]));
  }

  lemma CollectedAll(node: Node)
    ensures node.children.List? ==>
              ImagesIn(Tags(node)) == Collected(OwnImage(TagOf(node)), node.children.nodes, |node.children.nodes|)
    ensures !node.children.List? ==> ImagesIn(Tags(node)) == OwnImage(TagOf(node))
  {
    assert ImagesIn([TagOf(node)]) == OwnImage(TagOf(node));
    if node.children.List? {
      assert node.children.nodes[..|node.children.nodes|] == node.children.nodes;
      ImagesInConcat([TagOf(node)], TagsOf(node.children.nodes));
    }
  }

  /** `ObjectHelper.nodeToUrlImages`: a node's own image, then its children's in order. */
  method NodeToUrlImages(node: Node) returns (result: seq<Image>)
    ensures result == ImagesIn(Tags(node))
    decreases node
  {
    ghost var own := OwnImage(TagOf(node));
    result := OwnImage(TagOf(node));
    CollectedAll(node);
    if node.children.List? {
      for i := 0 to |node.children.nodes|
        invariant result == Collected(own, node.children.nodes, i)
      {
        var images := NodeToUrlImages(node.children.nodes[i]);
        CollectedNext(own, node.children.nodes, i);
        result := result + images;
      }
    }
  }

  /** The first-match replacement applied to an extracted image. */
  function ReplaceImage(replaceList: seq<Replacement>, image: Image): Image {
    match Find(replaceList, image.plateId)
    case Some(found) => image.(url := found.url)
    case None => image
  }

  function ReplaceImages(replaceList: seq<Replacement>, images: seq<Image>): (r: seq<Image>)
    ensures |r| == |images|
    ensures forall i :: 0 <= i < |images| ==> r[i] == ReplaceImage(replaceList, images[i])
  {
    seq(|images|, i requires 0 <= i < |images| => ReplaceImage(replaceList, images[i]))
  }

  /** The replacement neither gives a url to an image without one nor takes the url of one away. */
  predicate KeepsEmptiness(replaceList: seq<Replacement>, tag: Tag) {
    IsImage(tag) && Find(replaceList, tag.id).Some?
    ==> (HasUrl(tag) <==> Find(replaceList, tag.id).value.url != "")
  }

  lemma {:induction false} NoEmptyUrlExtracted(tags: seq<Tag>, image: Image)
    requires image in ImagesIn(tags)
    ensures image.url != ""
  {
    if tags != [] && image !in OwnImage(tags[|tags| - 1]) {
      NoEmptyUrlExtracted(tags[..|tags| - 1], image);
    }
  }

  predicate AllNonEmpty(images: seq<Image>) {
    forall i :: 0 <= i < |images| ==> images[i].url != ""
  }

  /** The two sides of the extraction law, compared without looking inside them. */
  predicate Separated(after: seq<Image>, mapped: seq<Image>, kept: bool) {
    && (kept ==> after == mapped)
    && (AllNonEmpty(mapped) ==> |after| >= |mapped|)
    && (AllNonEmpty(mapped) && |after| == |mapped| ==> kept)
  }

  /** One node: its image and the replacement commute exactly when emptiness is kept. */
  lemma OwnImageStep(replaceList: seq<Replacement>, tag: Tag)
    ensures Separated(OwnImage(Retag(FirstMatch(replaceList), tag)),
                      ReplaceImages(replaceList, OwnImage(tag)), KeepsEmptiness(replaceList, tag))
  {
    var mapped := ReplaceImages(replaceList, OwnImage(tag));
    if IsImage(tag) && HasUrl(tag) {
      var image := ReplaceImage(replaceList, Image(tag.id, tag.url.value));
      assert mapped == [image];
      assert AllNonEmpty(mapped) ==> mapped[0].url != "";
    } else {
      assert mapped == [];
    }
  }

  lemma SeparatedConcat(a0: seq<Image>, a1: seq<Image>, m0: seq<Image>, m1: seq<Image>, k0: bool, k1: bool)
    requires Separated(a0, m0, k0) && Separated(a1, m1, k1)
    ensures Separated(a0 + a1, m0 + m1, k0 && k1)
  {
    var mapped := m0 + m1;
    if AllNonEmpty(mapped) {
      assert forall i :: 0 <= i < |m0| ==> m0[i] == mapped[i];
      assert forall i :: 0 <= i < |m1| ==> m1[i] == mapped[|m0| + i];
    }
  }

  lemma ReplaceImagesConcat(replaceList: seq<Replacement>, a: seq<Image>, b: seq<Image>)
    ensures ReplaceImages(replaceList, a + b) == ReplaceImages(replaceList, a) + ReplaceImages(replaceList, b)
  {
  }

  predicate AllKeepEmptiness(replaceList: seq<Replacement>, tags: seq<Tag>) {
    forall tag :: tag in tags ==> KeepsEmptiness(replaceList, tag)
  }

  function After(replaceList: seq<Replacement>, tags: seq<Tag>): seq<Image> {
    ImagesIn(RetagAll(tags, FirstMatch(replaceList)))
  }

  function Mapped(replaceList: seq<Replacement>, tags: seq<Tag>): seq<Image> {
    ReplaceImages(replaceList, ImagesIn(tags))
  }

  lemma AfterAppend(replaceList: seq<Replacement>, before: seq<Tag>, last: Tag)
    ensures After(replaceList, before + [last])
         == After(replaceList, before) + OwnImage(Retag(FirstMatch(replaceList), last))
  {
    var rule := FirstMatch(replaceList);
    assert RetagAll(before + [last], rule) == RetagAll(before, rule) + [Retag(rule, last)];
    ImagesInAppend(RetagAll(before, rule), Retag(rule, last));
  }

  lemma MappedAppend(replaceList: seq<Replacement>, before: seq<Tag>, last: Tag)
    ensures Mapped(replaceList, before + [last])
         == Mapped(replaceList, before) + ReplaceImages(replaceList, OwnImage(last))
  {
    ImagesInAppend(before, last);
    ReplaceImagesConcat(replaceList, ImagesIn(before), OwnImage(last));
  }

  lemma SidesAppend(replaceList: seq<Replacement>, before: seq<Tag>, last: Tag)
    ensures After(replaceList, before + [last])
         == After(replaceList, before) + OwnImage(Retag(FirstMatch(replaceList), last))
    ensures Mapped(replaceList, before + [last])
         == Mapped(replaceList, before) + ReplaceImages(replaceList, OwnImage(last))
    ensures AllKeepEmptiness(replaceList, before + [last])
       <==> AllKeepEmptiness(replaceList, before) && KeepsEmptiness(replaceList, last)
  {
    AfterAppend(replaceList, before, last);
    MappedAppend(replaceList, before, last);
    assert forall tag :: tag in before + [last] <==> tag in before || tag == last;
  }

  /**
   * Lengths separate the two sides: while no mapped url is empty, replacing first never yields fewer
   * images than mapping the extraction, and yields as many only if every node keeps emptiness.
   */
  lemma {:induction false} ReplacedTags(replaceList: seq<Replacement>, tags: seq<Tag>)
    ensures Separated(After(replaceList, tags), Mapped(replaceList, tags), AllKeepEmptiness(replaceList, tags))
  {
    if tags != [] {
      var before, last := tags[..|tags| - 1], tags[|tags| - 1];
      assert tags == before + [last];
      ReplacedTags(replaceList, before);
      OwnImageStep(replaceList, last);
      SidesAppend(replaceList, before, last);
      SeparatedConcat(After(replaceList, before), OwnImage(Retag(FirstMatch(replaceList), last)),
                      Mapped(replaceList, before), ReplaceImages(replaceList, OwnImage(last)),
                      AllKeepEmptiness(replaceList, before), KeepsEmptiness(replaceList, last));
    }
  }

  /** The wrapper the migration builds around an article's node list before extracting. */
  function Root(content: seq<Node>): Node {
    Node(None, None, None, List(content), map[])
  }

  /**
   * Extraction after replacement is the first-match replacement of the earlier extraction, in the
   * same order, exactly when no image gains or loses a url: an image without a url may not get one,
   * and an image with one may not get the empty string.
   */
  lemma ExtractionCommutesIff(content: seq<Node>, replaceList: seq<Replacement>)
    ensures ImagesIn(Tags(Root(MapAll(content, FirstMatch(replaceList)))))
         == ReplaceImages(replaceList, ImagesIn(Tags(Root(content))))
       <==> AllKeepEmptiness(replaceList, TagsOf(content))
  {
    var rule := FirstMatch(replaceList);
    MapRetags(Root(content), rule);
    assert Root(MapAll(content, rule)) == MapUrls(Root(content), rule);
    ReplacedTags(replaceList, Tags(Root(content)));
    var tags := RetagAll(Tags(Root(content)), rule);
    forall i | 0 <= i < |ImagesIn(tags)|
      ensures ImagesIn(tags)[i].url != ""
    {
      NoEmptyUrlExtracted(tags, ImagesIn(tags)[i]);
    }
    assert forall tag :: tag in Tags(Root(content)) <==> tag in TagsOf(content) || tag == TagOf(Root(content));
  }

  /** An image with no url whose replacement has one: extracted afterwards although it was not before. */
  lemma EmptyImageBreaksExtraction()
    ensures exists content, replaceList ::
              ImagesIn(Tags(Root(MapAll(content, FirstMatch(replaceList)))))
              != ReplaceImages(replaceList, ImagesIn(Tags(Root(content))))
  {
    var node := Node(Some("img"), Some("a"), None, Missing, map[]);
    var content, replaceList := [node], [Replacement(Some("a"), "https://cdn")];
    ExtractionCommutesIff(content, replaceList);
    assert TagsOf(content) == TagsOf(content[..0]) + Tags(node);
    assert TagOf(node) in TagsOf(content);
    assert !KeepsEmptiness(replaceList, TagOf(node));
  }

  // ---------- In-place replacement over the parsed objects ----------

  /** A parsed node object. Only its url is ever assigned. */
  class PlateNode {
    const kind: Option<string>
    const id: Option<string>
    const children: Children<PlateNode>
    const attributes: map<string, string>
    var url: Option<string>
    ghost const height: nat

    constructor (kind: Option<string>, id: Option<string>, url: Option<string>, children: Children<PlateNode>,
                 attributes: map<string, string>, ghost bound: nat)
      requires children.List? ==> Below(children.nodes, bound)
      ensures Valid() && height == bound
      ensures this.kind == kind && this.id == id && this.children == children && this.attributes == attributes
      ensures this.url == url
    {
      this.kind, this.id, this.url, this.children, this.attributes := kind, id, url, children, attributes;
      height := bound;
    }

    /** Node objects form a finite tree: children sit strictly lower. Nothing here can be reassigned. */
    ghost predicate Valid()
      decreases height
    {
      children.List? ==> forall c :: c in children.nodes ==> c.height < height && c.Valid()
    }

    /** The node and everything below it. */
    ghost function Nodes(): set<PlateNode>
      requires Valid()
      decreases height
    {
      {this} + if children.List? then set c, o | c in children.nodes && o in c.Nodes() :: o else {}
    }

    /** The content tree this object stands for under the given urls. */
    ghost function Tree(urls: Urls): Node
      requires Valid() && Nodes() <= urls.Keys
      decreases height
    {
      Node(kind, id, urls[this],
           match children
           case List(nodes) => List(Trees(nodes, height, urls))
           case Missing => Missing
           case Null => Null,
           attributes)
    }
  }

  type Urls = map<PlateNode, Option<string>>

  /** The urls currently stored in the objects. */
  ghost function UrlsOf(objects: set<PlateNode>): Urls
    reads objects
  {
    map o | o in objects :: o.url
  }

  ghost predicate Below(nodes: seq<PlateNode>, height: nat) {
    forall c :: c in nodes ==> c.height < height && c.Valid()
  }

  ghost function NodesOf(nodes: seq<PlateNode>, height: nat): set<PlateNode>
    requires Below(nodes, height)
  {
    set c, o | c in nodes && o in c.Nodes() :: o
  }

  ghost function Trees(nodes: seq<PlateNode>, height: nat, urls: Urls): (r: seq<Node>)
    requires Below(nodes, height) && NodesOf(nodes, height) <= urls.Keys
    ensures |r| == |nodes|
    decreases height, |nodes|
  {
    if nodes == [] then []
    else Trees(nodes[..|nodes| - 1], height, urls) + [nodes[|nodes| - 1].Tree(urls)]
  }

  /** Every listed object's url is the rewritten earlier url. */
  ghost predicate Rewritten(was: Urls, now: Urls, objects: set<PlateNode>, rule: Rule)
    requires objects <= was.Keys && objects <= now.Keys
  {
    forall o :: o in objects ==> now[o] == NewUrl(rule, Tag(o.kind, o.id, was[o]))
  }

  lemma {:induction false} TreeRewritten(node: PlateNode, was: Urls, now: Urls, rule: Rule)
    requires node.Valid() && node.Nodes() <= was.Keys && node.Nodes() <= now.Keys
    requires Rewritten(was, now, node.Nodes(), rule)
    ensures node.Tree(now) == MapUrls(node.Tree(was), rule)
    decreases node.height
  {
    if node.children.List? {
      TreesRewritten(node.children.nodes, node.height, was, now, rule);
    }
  }

  lemma {:induction false} TreesRewritten(nodes: seq<PlateNode>, height: nat, was: Urls, now: Urls, rule: Rule)
    requires Below(nodes, height) && NodesOf(nodes, height) <= was.Keys && NodesOf(nodes, height) <= now.Keys
    requires Rewritten(was, now, NodesOf(nodes, height), rule)
    ensures Trees(nodes, height, now) == MapAll(Trees(nodes, height, was), rule)
    decreases height, |nodes|
  {
    if nodes != [] {
      TreesRewritten(nodes[..|nodes| - 1], height, was, now, rule);
      TreeRewritten(nodes[|nodes| - 1], was, now, rule);
      assert Trees(nodes, height, was)[..|nodes| - 1] == Trees(nodes[..|nodes| - 1], height, was);
    }
  }

  /** Part way through: every object has its old url or the rewritten one. */
  ghost predicate PartlyRewritten(was: Urls, rule: Rule)
    reads was.Keys
  {
    forall o :: o in was.Keys ==> o.url == was[o] || o.url == NewUrl(rule, Tag(o.kind, o.id, was[o]))
  }

  lemma NewUrlTwice(rule: Rule, tag: Tag)
    ensures NewUrl(rule, tag.(url := NewUrl(rule, tag))) == NewUrl(rule, tag)
  {
  }

  lemma NextNodes(content: seq<PlateNode>, height: nat, i: nat)
    requires Below(content, height) && i < |content|
    ensures content[i] in content[i].Nodes() && content[i].Nodes() <= NodesOf(content, height)
    ensures content[i].Nodes() == {content[i]} +
              if content[i].children.List? then NodesOf(content[i].children.nodes, content[i].height) else {}
    ensures NodesOf(content[..i + 1], height) == NodesOf(content[..i], height) + content[i].Nodes()
  {
    assert content[..i + 1] == content[..i] + [content[i]];
    forall o | o in NodesOf(content[..i], height)
      ensures o in NodesOf(content[..i + 1], height)
    {
      var c :| c in content[..i] && o in c.Nodes();
      assert c in content[..i + 1];
    }
    assert content[i] in content[..i + 1];
  }

  /** Gives an image its replacement url, if one is listed. */
  method AssignUrl(item: PlateNode, replaceList: seq<Replacement>)
    modifies item`url
    ensures item.url == NewUrl(FirstMatch(replaceList), Tag(item.kind, item.id, old(item.url)))
  {
    if item.kind == Some("img") {
      var imageToUpdate := Find(replaceList, item.id);
      if imageToUpdate.Some? {
        item.url := Some(imageToUpdate.value.url);
      }
    }
  }

  /** One turn of the loop. */
  method ReplaceItem(item: PlateNode, replaceList: seq<Replacement>, ghost was: Urls)
    requires item.Valid() && item.Nodes() <= was.Keys
    requires PartlyRewritten(was, FirstMatch(replaceList))
    modifies item.Nodes()`url
    ensures PartlyRewritten(was, FirstMatch(replaceList))
    ensures Rewritten(was, UrlsOf(item.Nodes()), item.Nodes(), FirstMatch(replaceList))
    decreases item.height
  {
    ghost var rule := FirstMatch(replaceList);
    NewUrlTwice(rule, Tag(item.kind, item.id, was[item]));
    AssignUrl(item, replaceList);
    assert item.url == NewUrl(rule, Tag(item.kind, item.id, was[item]));
    if item.children.List? {
      ReplaceUrls(item.children.nodes, replaceList, item.height, was);
    }
  }

  /** The recursion of `contentReplaceUrl`, against a snapshot `was` of the urls before the first call. */
  method ReplaceUrls(content: seq<PlateNode>, replaceList: seq<Replacement>,
                     ghost height: nat, ghost was: Urls)
    requires Below(content, height) && NodesOf(content, height) <= was.Keys
    requires PartlyRewritten(was, FirstMatch(replaceList))
    modifies NodesOf(content, height)`url
    ensures PartlyRewritten(was, FirstMatch(replaceList))
    ensures Rewritten(was, UrlsOf(NodesOf(content, height)), NodesOf(content, height), FirstMatch(replaceList))
    decreases height, |content|
  {
    ghost var rule := FirstMatch(replaceList);
    for i := 0 to |content|
      invariant PartlyRewritten(was, rule)
      invariant NodesOf(content[..i], height) <= was.Keys
      invariant Rewritten(was, UrlsOf(NodesOf(content[..i], height)), NodesOf(content[..i], height), rule)
    {
      NextNodes(content, height, i);
      ReplaceItem(content[i], replaceList, was);
    }
    assert content[..|content|] == content;
  }

  /** `ObjectHelper.contentReplaceUrl`: assigns urls in place, descending into every child list. */
  method ContentReplaceUrl(content: seq<PlateNode>, replaceList: seq<Replacement>, ghost height: nat)
    requires Below(content, height)
    modifies NodesOf(content, height)`url
    ensures var objects := NodesOf(content, height);
            var was, now := old(UrlsOf(objects)), UrlsOf(objects);
            && Rewritten(was, now, objects, FirstMatch(replaceList))
            && Trees(content, height, now) == MapAll(Trees(content, height, was), FirstMatch(replaceList))
  {
    ghost var objects := NodesOf(content, height);
    ghost var was := UrlsOf(objects);
    ReplaceUrls(content, replaceList, height, was);
    TreesRewritten(content, height, was, UrlsOf(objects), FirstMatch(replaceList));
  }

  // ---------- Scrubbing base64 urls ----------

  /** `overrideUrl` */
  function OverrideUrl(node: Node): Node {
    if IsImage(TagOf(node)) && HasUrl(TagOf(node)) && "data" <= node.url.value
    then node.(url := Some(""))
    else node
  }

  /** `None` is the `TypeError` of reading `length` of a `null` child list. */
  type Scrubbed = Option<seq<Node>>

  function Append(before: Scrubbed, last: Option<Node>): Scrubbed {
    if before.Some? && last.Some? then Some(before.value + [last.value]) else None
  }

  /** One turn of the map in `_recurseChildren`. The rewritten node has all properties of the old one. */
  function RecurseChild(child: Node): Option<Node> {
    var newChild := OverrideUrl(child);
    match child.children
    case Missing => Some(newChild)
    case Null => None
    case List(nodes) =>
      if |nodes| > 0 then
        var newChildren := RecurseChildren(nodes);
        if newChildren.None? then None else Some(newChild.(children := List(newChildren.value)))
      else
        Some(newChild)
  }

  /** `_recurseChildren` on an array. */
  function RecurseChildren(children: seq<Node>): Scrubbed {
    if children == [] then Some([])
    else Append(RecurseChildren(children[..|children| - 1]), RecurseChild(children[|children| - 1]))
  }

  /** One turn of the map in `_recursivelyUpdateChildrenProperties`: recurses when the list is truthy. */
  function UpdateChild(child: Node): Option<Node> {
    var newChild := OverrideUrl(child);
    if newChild.children.List? then
      var newChildren := RecurseChildren(newChild.children.nodes);
      if newChildren.None? then None else Some(newChild.(children := List(newChildren.value)))
    else
      Some(newChild)
  }

  function UpdateChildren(children: seq<Node>): Scrubbed {
    if children == [] then Some([])
    else Append(UpdateChildren(children[..|children| - 1]), UpdateChild(children[|children| - 1]))
  }

  /** `_recursivelyUpdateChildrenProperties` */
  function RecursivelyUpdate(node: Node): Option<Node> {
    var newNode := OverrideUrl(node);
    if !node.children.List? || |node.children.nodes| == 0 then Some(newNode)
    else
      var newChildren := UpdateChildren(newNode.children.nodes);
      if newChildren.None? then None else Some(newNode.(children := List(newChildren.value)))
  }

  /** The map over an article's parsed content in `migrateContent`. */
  function ScrubContent(content: seq<Node>): Scrubbed {
    if content == [] then Some([])
    else Append(ScrubContent(content[..|content| - 1]), RecursivelyUpdate(content[|content| - 1]))
  }

  /** No node here or below has `children: null`. */
  predicate NoNullLists(nodes: seq<Node>) {
    forall node :: node in nodes ==> NoNullList(node)
  }

  predicate NoNullList(node: Node) {
    !node.children.Null? && (node.children.List? ==> NoNullLists(node.children.nodes))
  }

  predicate ChildListOk(node: Node) {
    node.children.List? ==> NoNullLists(node.children.nodes)
  }

  predicate ChildListsOk(children: seq<Node>) {
    forall child :: child in children ==> ChildListOk(child)
  }

  /** Null child lists are survived at the first two levels and nowhere deeper. */
  predicate Scrubbable(node: Node) {
    node.children.List? ==> ChildListsOk(node.children.nodes)
  }

  predicate AllScrubbable(content: seq<Node>) {
    forall node :: node in content ==> Scrubbable(node)
  }

  lemma OverrideIsMapStep(node: Node)
    ensures OverrideUrl(node) == node.(url := NewUrl(DropDataUrls, TagOf(node)))
  {
  }

  lemma {:induction false} RecurseChildIsMap(child: Node)
    ensures RecurseChild(child) == if NoNullList(child) then Some(MapUrls(child, DropDataUrls)) else None
  {
    OverrideIsMapStep(child);
    if child.children.List? {
      RecurseChildrenIsMap(child.children.nodes);
    }
  }

  lemma {:induction false} RecurseChildrenIsMap(children: seq<Node>)
    ensures RecurseChildren(children)
         == if NoNullLists(children) then Some(MapAll(children, DropDataUrls)) else None
  {
    if children != [] {
      RecurseChildrenIsMap(children[..|children| - 1]);
      RecurseChildIsMap(children[|children| - 1]);
      assert forall c :: c in children <==> c in children[..|children| - 1] || c == children[|children| - 1];
    }
  }

  lemma UpdateChildIsMap(child: Node)
    ensures UpdateChild(child) == if ChildListOk(child) then Some(MapUrls(child, DropDataUrls)) else None
  {
    OverrideIsMapStep(child);
    if child.children.List? {
      RecurseChildrenIsMap(child.children.nodes);
    }
  }

  lemma {:induction false} UpdateChildrenIsMap(children: seq<Node>)
    ensures UpdateChildren(children)
         == if ChildListsOk(children) then Some(MapAll(children, DropDataUrls)) else None
  {
    if children != [] {
      UpdateChildrenIsMap(children[..|children| - 1]);
      UpdateChildIsMap(children[|children| - 1]);
      assert forall c :: c in children <==> c in children[..|children| - 1] || c == children[|children| - 1];
    }
  }

  lemma RecursivelyUpdateIsMap(node: Node)
    ensures RecursivelyUpdate(node) == if Scrubbable(node) then Some(MapUrls(node, DropDataUrls)) else None
  {
    OverrideIsMapStep(node);
    if node.children.List? {
      UpdateChildrenIsMap(node.children.nodes);
    }
  }

  lemma {:induction false} ScrubIsMap(content: seq<Node>)
    ensures ScrubContent(content)
         == if AllScrubbable(content) then Some(MapAll(content, DropDataUrls)) else None
  {
    if content != [] {
      ScrubIsMap(content[..|content| - 1]);
      RecursivelyUpdateIsMap(content[|content| - 1]);
      assert forall n :: n in content <==> n in content[..|content| - 1] || n == content[|content| - 1];
    }
  }

  lemma {:induction false} MapKeepsNullLists(node: Node, rule: Rule)
    ensures NoNullList(MapUrls(node, rule)) == NoNullList(node)
  {
    if node.children.List? {
      MapAllKeepsNullLists(node.children.nodes, rule);
    }
  }

  lemma {:induction false} MapAllKeepsNullLists(nodes: seq<Node>, rule: Rule)
    ensures NoNullLists(MapAll(nodes, rule)) == NoNullLists(nodes)
  {
    forall i | 0 <= i < |nodes|
      ensures NoNullList(MapAll(nodes, rule)[i]) == NoNullList(nodes[i])
    {
      MapKeepsNullLists(nodes[i], rule);
    }
  }

  lemma MapKeepsScrubbable(content: seq<Node>, rule: Rule)
    requires AllScrubbable(content)
    ensures AllScrubbable(MapAll(content, rule))
  {
    forall i | 0 <= i < |content|
      ensures Scrubbable(MapUrls(content[i], rule))
    {
      assert content[i] in content;
      if content[i].children.List? {
        var children := content[i].children.nodes;
        forall j | 0 <= j < |children|
          ensures ChildListOk(MapUrls(children[j], rule))
        {
          assert children[j] in children;
          if children[j].children.List? {
            MapAllKeepsNullLists(children[j].children.nodes, rule);
          }
        }
      }
    }
  }

  /**
   * The two recursions together are the full map: when they finish, every node at every depth went
   * through `overrideUrl` exactly once, nothing but image urls changed, no image keeps a url starting
   * with "data", and a second pass changes nothing. They finish exactly when no node below the second
   * level has a `null` child list.
   */
  lemma ScrubIsFullMapIff(content: seq<Node>)
    ensures ScrubContent(content).Some? <==> AllScrubbable(content)
    ensures ScrubContent(content).Some? ==>
              var scrubbed := ScrubContent(content).value;
              && TagsOf(scrubbed) == RetagAll(TagsOf(content), DropDataUrls)
              && Shapes(scrubbed) == Shapes(content)
              && (forall tag :: tag in TagsOf(scrubbed) ==> !(IsImage(tag) && IsDataUrl(tag)))
              && ScrubContent(scrubbed) == Some(scrubbed)
  {
    ScrubIsMap(content);
    if AllScrubbable(content) {
      var scrubbed := MapAll(content, DropDataUrls);
      MapAllRetags(content, DropDataUrls);
      MapAllKeepsShapes(content, DropDataUrls);
      MapKeepsScrubbable(content, DropDataUrls);
      ScrubIsMap(scrubbed);
      MapAllTwice(content, DropDataUrls);
    }
  }

  /** A grandchild with `children: null` stops the scrubbing of the article. */
  lemma NullListStopsScrub()
    ensures var leaf := Node(Some("p"), None, None, Null, map[]);
            var child := Node(Some("li"), None, None, List([leaf]), map[]);
            ScrubContent([Node(Some("ul"), None, None, List([child]), map[])]).None?
  {
    var leaf := Node(Some("p"), None, None, Null, map[]);
    var child := Node(Some("li"), None, None, List([leaf]), map[]);
    var node := Node(Some("ul"), None, None, List([child]), map[]);
    assert leaf in child.children.nodes && !NoNullList(leaf);
    assert child in node.children.nodes && !ChildListOk(child);
    assert node in [node] && !Scrubbable(node);
    ScrubIsFullMapIff([node]);
  }
}
