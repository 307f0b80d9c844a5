/**
 The flat webhook payloads (`flattenPayload`): which keys they have, and what is there.
 */
module FlatPayloads {
  import opened Options
  import opened Flatten

  const ENTRY_FIELDS: set<string> := {"id", "slug", "title", "url", "status", "published_at"}

  const COMMENT_FIELDS: set<string> := {"id", "entry_id", "entry_url", "admin_url", "status", "commenter", "body_excerpt"}

  const IMAGE_FIELDS: set<string> := {"id", "filename", "mime_type", "size_bytes", "url"}

  function Leaves(fields: map<string, Scalar>): Json {
    Object(map f | f in fields :: Leaf(fields[f]))
  }

  function Texts(values: seq<string>): Json {
    Array(seq(|values|, i requires 0 <= i < |values| => Leaf(Text(values[i]))))
  }

  function Envelope(head: map<string, Scalar>, weblog: map<string, Scalar>, data: Json): Json {
    Object((map f | f in head :: Leaf(head[f])) + map["weblog" := Leaves(weblog), "data" := data])
  }

  function EntryData(fields: map<string, Scalar>, author: map<string, Scalar>, categories: seq<string>, tags: seq<string>): Json {
    Object((map f | f in fields :: Leaf(fields[f]))
           + map["author" := Leaves(author), "categories" := Texts(categories), "tags" := Texts(tags)])
  }

  /** Any of the three payloads. */
  ghost predicate IsPayload(node: Json) {
    exists head: map<string, Scalar>, weblog: map<string, Scalar>, data ::
      && head.Keys == {"id", "event", "timestamp"} && weblog.Keys == {"id", "title", "url"}
      && node == Envelope(head, weblog, data) && IsData(data)
  }

  ghost predicate IsData(data: Json) {
    || (exists fields: map<string, Scalar> ::
          (fields.Keys == COMMENT_FIELDS || fields.Keys == IMAGE_FIELDS) && data == Leaves(fields))
    || (exists fields: map<string, Scalar>, author: map<string, Scalar>, categories, tags ::
          && fields.Keys == ENTRY_FIELDS && author.Keys == {"id", "name"}
          && data == EntryData(fields, author, categories, tags))
  }

  const LISTS: set<string> := {"author", "categories", "tags"}

  /** Where a payload may have a leaf. */
  predicate PayloadPosition(pos: Position) {
    || (|pos| == 1 && pos[0] in {"id", "event", "timestamp"})
    || (|pos| == 2 && pos[0] == "weblog")
    || (|pos| == 2 && pos[0] == "data" && pos[1] in ENTRY_FIELDS + COMMENT_FIELDS + IMAGE_FIELDS)
    || (|pos| == 3 && pos[0] == "data" && pos[1] in LISTS)
  }

  /** The position a payload's key stands for. */
  function PositionOf(key: string): Position {
    if "data_author_" <= key then ["data", "author", key[12..]]
    else if "data_categories_" <= key then ["data", "categories", key[16..]]
    else if "data_tags_" <= key then ["data", "tags", key[10..]]
    else if "data_" <= key then ["data", key[5..]]
    else if "weblog_" <= key then ["weblog", key[7..]]
    else [key]
  }

  lemma CutPrefix(a: string, x: string, y: string)
    ensures a + x <= a + y <==> x <= y
  {
    assert (a + y)[|a|..] == y && (a + x)[|a|..] == x;
    if a + x <= a + y { assert x == y[..|x|]; }
    if x <= y { assert a + y == a + x + y[|x|..]; }
  }

  lemma DataKey(field: string)
    requires field in ENTRY_FIELDS + COMMENT_FIELDS + IMAGE_FIELDS
    ensures PositionOf("data_" + field) == ["data", field]
  {
    var key := "data_" + field;
    CutPrefix("data_", "author_", field);
    CutPrefix("data_", "categories_", field);
    CutPrefix("data_", "tags_", field);
    assert "data_" + "author_" == "data_author_" && "data_" + "categories_" == "data_categories_" && "data_" + "tags_" == "data_tags_";
    assert !("author_" <= field) && !("categories_" <= field) && !("tags_" <= field) by { FieldsAreNoLists(field); }
    assert key[5..] == field;
  }

  lemma FieldsAreNoLists(field: string)
    requires field in ENTRY_FIELDS + COMMENT_FIELDS + IMAGE_FIELDS
    ensures !("author_" <= field) && !("categories_" <= field) && !("tags_" <= field)
  {
    Differs("author_", field);
    Differs("categories_", field);
    Differs("tags_", field);
  }

  lemma Differs(x: string, s: string)
    requires x != "" && (s == "" || s[0] != x[0] || (|x| > 1 && |s| > 1 && s[1] != x[1]))
    ensures !(x <= s)
  {
  }

  lemma ListKey(list: string, x: string)
    requires list in LISTS
    ensures PositionOf("data_" + list + "_" + x) == ["data", list, x]
  {
    var key := "data_" + list + "_" + x;
    if list == "author" {
      assert key == "data_author_" + x && key[12..] == x;
    } else if list == "categories" {
      assert key == "data_categories_" + x && key[16..] == x && key[5] == 'c';
    } else {
      assert key == "data_tags_" + x && key[10..] == x && key[5] == 't';
    }
  }

  lemma HeadKey(x: string)
    requires x in {"id", "event", "timestamp"}
    ensures PositionOf(x) == [x] && KeyOf("", [x]) == x && x !in {"", "text", "content"}
  {
    assert [x][1..] == [];
    NoPrefix(x);
  }

  lemma WeblogKey(x: string)
    ensures PositionOf("weblog_" + x) == ["weblog", x]
  {
    var key := "weblog_" + x;
    assert key[0] == 'w' && key[7..] == x;
  }

  lemma ShortKeys()
    ensures PositionOf("text") == ["text"] && PositionOf("content") == ["content"] && PositionOf("") == [""]
  {
    forall key | key in {"text", "content", ""} ensures PositionOf(key) == [key] { NoPrefix(key); }
  }

  lemma NoPrefix(key: string)
    requires key == "" || (key[0] != 'd' && key[0] != 'w')
    ensures PositionOf(key) == [key]
  {
    Differs("data_author_", key);
    Differs("data_categories_", key);
    Differs("data_tags_", key);
    Differs("data_", key);
    Differs("weblog_", key);
  }

  lemma KeysReadBack(pos: Position)
    requires PayloadPosition(pos)
    ensures PositionOf(KeyOf("", pos)) == pos && KeyOf("", pos) !in {"", "text", "content"}
  {
    hide PositionOf, KeyOf;
    ShortKeys();
    if |pos| == 1 {
      assert pos == [pos[0]] && pos[1..] == [];
      HeadKey(pos[0]);
    } else if |pos| == 2 {
      assert pos == [pos[0], pos[1]];
      KeyOfTwo(pos[0], pos[1]);
      assert "data" + "_" == "data_" && "weblog" + "_" == "weblog_";
      if pos[0] == "weblog" { WeblogKey(pos[1]); } else { DataKey(pos[1]); }
    } else {
      assert pos == [pos[0], pos[1], pos[2]];
      KeyOfThree(pos[0], pos[1], pos[2]);
      assert "data" + "_" == "data_";
      ListKey(pos[1], pos[2]);
    }
  }

  lemma LeavesOf(fields: map<string, Scalar>, pos: Position, v: Scalar)
    requires IsLeaf(Leaves(fields), pos, v)
    ensures |pos| == 1 && pos[0] in fields
  {
    assert IsLeaf(Leaf(fields[pos[0]]), pos[1..], v);
  }

  lemma TextsOf(values: seq<string>, pos: Position, v: Scalar)
    requires IsLeaf(Texts(values), pos, v)
    ensures |pos| == 1
  {
    var items := Texts(values).items;
    var i :| 0 <= i < |items| && pos[0] == Itoa(i) && IsLeaf(items[i], pos[1..], v);
    assert items[i] == Leaf(Text(values[i]));
    assert pos[1..] == [];
  }

  lemma EntryLeaves(fields: map<string, Scalar>, author: map<string, Scalar>, categories: seq<string>, tags: seq<string>,
                    pos: Position, v: Scalar)
    requires fields.Keys == ENTRY_FIELDS && IsLeaf(EntryData(fields, author, categories, tags), pos, v)
    ensures (|pos| == 1 && pos[0] in ENTRY_FIELDS) || (|pos| == 2 && pos[0] in LISTS)
  {
    var data := EntryData(fields, author, categories, tags);
    var child, rest := data.fields[pos[0]], pos[1..];
    assert IsLeaf(child, rest, v);
    if pos[0] == "author" {
      LeavesOf(author, rest, v);
    } else if pos[0] == "categories" {
      TextsOf(categories, rest, v);
    } else if pos[0] == "tags" {
      TextsOf(tags, rest, v);
    } else {
      assert child == Leaf(fields[pos[0]]);
    }
  }

  lemma DataLeaves(data: Json, pos: Position, v: Scalar)
    requires IsData(data) && IsLeaf(data, pos, v)
    ensures PayloadPosition(["data"] + pos)
  {
    hide IsLeaf;
    var whole := ["data"] + pos;
    assert whole[1..] == pos;
    if fields: map<string, Scalar> :| (fields.Keys == COMMENT_FIELDS || fields.Keys == IMAGE_FIELDS) && data == Leaves(fields) {
      LeavesOf(fields, pos, v);
    } else {
      var fields: map<string, Scalar>, author: map<string, Scalar>, categories, tags :|
        && fields.Keys == ENTRY_FIELDS && author.Keys == {"id", "name"}
        && data == EntryData(fields, author, categories, tags);
      EntryLeaves(fields, author, categories, tags, pos, v);
    }
  }

  lemma EnvelopeLeaves(head: map<string, Scalar>, weblog: map<string, Scalar>, data: Json, pos: Position, v: Scalar)
    requires head.Keys == {"id", "event", "timestamp"} && IsLeaf(Envelope(head, weblog, data), pos, v)
    ensures pos != []
    ensures if pos[0] == "data" then IsLeaf(data, pos[1..], v)
            else if pos[0] == "weblog" then |pos| == 2 else |pos| == 1 && pos[0] in head
  {
    var node := Envelope(head, weblog, data);
    var child, rest := node.fields[pos[0]], pos[1..];
    assert IsLeaf(child, rest, v);
    if pos[0] == "weblog" {
      LeavesOf(weblog, rest, v);
    } else if pos[0] != "data" {
      assert child == Leaf(head[pos[0]]);
    }
  }

  lemma PayloadLeaves(node: Json, pos: Position, v: Scalar)
    requires IsPayload(node) && IsLeaf(node, pos, v)
    ensures PayloadPosition(pos)
  {
    hide IsLeaf, IsData, Envelope;
    var head: map<string, Scalar>, weblog: map<string, Scalar>, data :|
      && head.Keys == {"id", "event", "timestamp"} && weblog.Keys == {"id", "title", "url"}
      && node == Envelope(head, weblog, data) && IsData(data);
    EnvelopeLeaves(head, weblog, data, pos, v);
    if pos[0] == "data" {
      assert pos == ["data"] + pos[1..];
      DataLeaves(data, pos[1..], v);
    }
  }

  /** Every entry, comment and image payload, with any number of categories and tags,
      has distinct keys, and none of them is `text` or `content`. */
  lemma PayloadKeysAreDistinct(node: Json)
    requires IsPayload(node)
    ensures DistinctKeys(node)
    ensures forall p, v :: IsLeaf(node, p, v) ==> KeyOf("", p) != "text" && KeyOf("", p) != "content"
  {
    hide IsPayload, PayloadPosition, KeyOf, IsLeaf, PositionOf;
    forall p, v | IsLeaf(node, p, v)
      ensures PositionOf(KeyOf("", p)) == p && KeyOf("", p) != "" && KeyOf("", p) != "text" && KeyOf("", p) != "content"
    {
      PayloadLeaves(node, p, v);
      KeysReadBack(p);
    }
  }

  // ---------------------------------------------------------------------------
  // Key by key
  // ---------------------------------------------------------------------------

  ghost predicate IsEntry(tree: Json, head: map<string, Scalar>, weblog: map<string, Scalar>, fields: map<string, Scalar>,
                          author: map<string, Scalar>, categories: seq<string>, tags: seq<string>) {
    && head.Keys == {"id", "event", "timestamp"} && weblog.Keys == {"id", "title", "url"}
    && fields.Keys == {"id", "slug", "title", "url", "status", "published_at"} && author.Keys == {"id", "name"}
    && tree == Envelope(head, weblog, EntryData(fields, author, categories, tags))
  }

  /** The values at the keys that begin with `prefix` are those of `fields`. */
  ghost predicate FieldsAt(out: map<string, Scalar>, prefix: string, fields: map<string, Scalar>) {
    forall f :: f in fields ==> prefix + f in out && out[prefix + f] == fields[f]
  }

  /** The text with the index `i` is at `prefix` and the numeral of `i`. */
  ghost predicate TextsAt(out: map<string, Scalar>, prefix: string, values: seq<string>) {
    forall i: nat, d: string {:trigger IsNumeral(d, i)} :: i < |values| && IsNumeral(d, i) ==>
      prefix + d in out && out[prefix + d] == Text(values[i])
  }

  ghost predicate KeyOfField(k: string, prefix: string, fields: map<string, Scalar>) {
    exists f :: f in fields && k == prefix + f
  }

  ghost predicate KeyOfText(k: string, prefix: string, values: seq<string>) {
    exists i: nat, d: string {:trigger IsNumeral(d, i)} :: i < |values| && IsNumeral(d, i) && k == prefix + d
  }

  ghost predicate SummaryAt(out: map<string, Scalar>, summary: string) {
    summary != "" ==> "text" in out && out["text"] == Text(summary) && "content" in out && out["content"] == Text(summary)
  }

  /** The flat form of an entry payload, key by key. */
  ghost predicate FlatEntry(out: map<string, Scalar>, summary: string, head: map<string, Scalar>, weblog: map<string, Scalar>,
                            fields: map<string, Scalar>, author: map<string, Scalar>, categories: seq<string>, tags: seq<string>) {
    && FieldsAt(out, "", head) && FieldsAt(out, "weblog_", weblog) && FieldsAt(out, "data_", fields)
    && FieldsAt(out, "data_author_", author)
    && TextsAt(out, "data_categories_", categories) && TextsAt(out, "data_tags_", tags) && SummaryAt(out, summary)
    && forall k :: k in out ==>
         || (summary != "" && k in {"text", "content"})
         || KeyOfField(k, "", head) || KeyOfField(k, "weblog_", weblog) || KeyOfField(k, "data_", fields)
         || KeyOfField(k, "data_author_", author)
         || KeyOfText(k, "data_categories_", categories) || KeyOfText(k, "data_tags_", tags)
  }

  /** A comment or an image payload. */
  ghost predicate IsSimple(tree: Json, head: map<string, Scalar>, weblog: map<string, Scalar>, fields: map<string, Scalar>) {
    && head.Keys == {"id", "event", "timestamp"} && weblog.Keys == {"id", "title", "url"}
    && (fields.Keys == {"id", "entry_id", "entry_url", "admin_url", "status", "commenter", "body_excerpt"}
        || fields.Keys == {"id", "filename", "mime_type", "size_bytes", "url"})
    && tree == Envelope(head, weblog, Leaves(fields))
  }

  ghost predicate FlatSimple(out: map<string, Scalar>, summary: string, head: map<string, Scalar>, weblog: map<string, Scalar>,
                             fields: map<string, Scalar>) {
    && FieldsAt(out, "", head) && FieldsAt(out, "weblog_", weblog) && FieldsAt(out, "data_", fields) && SummaryAt(out, summary)
    && forall k :: k in out ==>
         || (summary != "" && k in {"text", "content"})
         || KeyOfField(k, "", head) || KeyOfField(k, "weblog_", weblog) || KeyOfField(k, "data_", fields)
  }

  /** What flattening and the summary leave in `out`. */
  ghost predicate FlatLeaves(tree: Json, summary: string, out: map<string, Scalar>) {
    && (forall p, v {:trigger IsLeaf(tree, p, v)} :: IsLeaf(tree, p, v) ==> KeyOf("", p) in out && out[KeyOf("", p)] == v)
    && (forall k :: k in out ==> (k in {"text", "content"} && summary != "" && out[k] == Text(summary)) || Has("", tree, k, out[k]))
    && SummaryAt(out, summary)
  }

  lemma FieldLeaf(fields: map<string, Scalar>, f: string)
    requires f in fields
    ensures IsLeaf(Leaves(fields), [f], fields[f])
  {
    assert [f][1..] == [];
  }

  lemma OneBelow(node: Json, key: string, child: Json, pos: Position, v: Scalar)
    requires node.Object? && key in node.fields && node.fields[key] == child && IsLeaf(child, pos, v)
    ensures IsLeaf(node, [key] + pos, v)
  {
    assert ([key] + pos)[1..] == pos;
  }

  lemma TextLeaf(values: seq<string>, i: nat)
    requires i < |values|
    ensures IsLeaf(Texts(values), [Itoa(i)], Text(values[i]))
  {
    assert [Itoa(i)][1..] == [];
    assert Texts(values).items[i] == Leaf(Text(values[i]));
  }

  lemma KeyOfOne(a: string)
    ensures KeyOf("", [a]) == a
  {
    assert [a][1..] == [];
  }

  lemma HeadLeaf(head: map<string, Scalar>, weblog: map<string, Scalar>, data: Json, h: string)
    requires head.Keys == {"id", "event", "timestamp"} && h in head
    ensures IsLeaf(Envelope(head, weblog, data), [h], head[h])
  {
    assert [h][1..] == [];
  }

  /** The head and the weblog, of any payload. */
  lemma EnvelopeIsFlat(tree: Json, summary: string, out: map<string, Scalar>, head: map<string, Scalar>,
                       weblog: map<string, Scalar>, data: Json)
    requires FlatLeaves(tree, summary, out) && tree == Envelope(head, weblog, data)
    requires head.Keys == {"id", "event", "timestamp"}
    ensures FieldsAt(out, "", head) && FieldsAt(out, "weblog_", weblog)
  {
    hide IsLeaf, KeyOf, Has;
    forall h | h in head ensures "" + h in out && out["" + h] == head[h] {
      HeadLeaf(head, weblog, data, h);
      KeyOfOne(h);
      assert "" + h == h;
    }
    forall w | w in weblog ensures "weblog_" + w in out && out["weblog_" + w] == weblog[w] {
      FieldLeaf(weblog, w);
      OneBelow(tree, "weblog", Leaves(weblog), [w], weblog[w]);
      assert ["weblog"] + [w] == ["weblog", w];
      KeyOfTwo("weblog", w);
      assert "weblog" + "_" == "weblog_";
      assert IsLeaf(tree, ["weblog", w], weblog[w]);
    }
  }

  /** A leaf of the data is at its own key behind `data_`. */
  lemma DataIsFlat(tree: Json, summary: string, out: map<string, Scalar>, head: map<string, Scalar>,
                   weblog: map<string, Scalar>, data: Json, pos: Position, v: Scalar)
    requires FlatLeaves(tree, summary, out) && tree == Envelope(head, weblog, data) && IsLeaf(data, pos, v)
    ensures KeyOf("", ["data"] + pos) in out && out[KeyOf("", ["data"] + pos)] == v
  {
    hide KeyOf, Has;
    OneBelow(tree, "data", data, pos, v);
  }

  /** The fields of `fields` are leaves of `data`. */
  ghost predicate HasFields(data: Json, fields: map<string, Scalar>) {
    data.Object? && forall f :: f in fields ==> f in data.fields && data.fields[f] == Leaf(fields[f])
  }

  lemma SimpleDataIsFlat(tree: Json, summary: string, out: map<string, Scalar>, head: map<string, Scalar>,
                         weblog: map<string, Scalar>, data: Json, fields: map<string, Scalar>)
    requires FlatLeaves(tree, summary, out) && tree == Envelope(head, weblog, data) && HasFields(data, fields)
    ensures FieldsAt(out, "data_", fields)
  {
    hide KeyOf, Has, FlatLeaves, Envelope;
    forall f | f in fields ensures "data_" + f in out && out["data_" + f] == fields[f] {
      OneBelow(data, f, Leaf(fields[f]), [], fields[f]);
      assert [f] + [] == [f];
      DataIsFlat(tree, summary, out, head, weblog, data, [f], fields[f]);
      assert ["data"] + [f] == ["data", f];
      KeyOfTwo("data", f);
      assert "data" + "_" == "data_";
    }
  }

  lemma ListIsFlat(tree: Json, summary: string, out: map<string, Scalar>, head: map<string, Scalar>,
                   weblog: map<string, Scalar>, data: Json, list: string, values: seq<string>)
    requires FlatLeaves(tree, summary, out) && tree == Envelope(head, weblog, data)
    requires data.Object? && list in data.fields && data.fields[list] == Texts(values)
    ensures TextsAt(out, "data_" + list + "_", values)
  {
    hide IsLeaf, KeyOf, Has, FlatLeaves, Envelope, Texts, Itoa, IsNumeral;
    var prefix := "data_" + list + "_";
    forall i: nat, d: string | i < |values| && IsNumeral(d, i) ensures prefix + d in out && out[prefix + d] == Text(values[i]) {
      NumeralIsItoa(d, i);
      TextLeaf(values, i);
      OneBelow(data, list, Texts(values), [d], Text(values[i]));
      DataIsFlat(tree, summary, out, head, weblog, data, [list] + [d], Text(values[i]));
      assert ["data"] + ([list] + [d]) == ["data", list, d];
      KeyOfThree("data", list, d);
      assert "data" + "_" + list + "_" == prefix;
    }
  }

  lemma AuthorIsFlat(tree: Json, summary: string, out: map<string, Scalar>, head: map<string, Scalar>,
                     weblog: map<string, Scalar>, data: Json, author: map<string, Scalar>)
    requires FlatLeaves(tree, summary, out) && tree == Envelope(head, weblog, data)
    requires data.Object? && "author" in data.fields && data.fields["author"] == Leaves(author)
    ensures FieldsAt(out, "data_author_", author)
  {
    hide IsLeaf, KeyOf, Has, FlatLeaves, Envelope;
    forall a | a in author ensures "data_author_" + a in out && out["data_author_" + a] == author[a] {
      FieldLeaf(author, a);
      OneBelow(data, "author", Leaves(author), [a], author[a]);
      DataIsFlat(tree, summary, out, head, weblog, data, ["author"] + [a], author[a]);
      assert ["data"] + (["author"] + [a]) == ["data", "author", a];
      KeyOfThree("data", "author", a);
      assert "data" + "_" + "author" + "_" == "data_author_";
    }
  }

  // ---------------------------------------------------------------------------
  // And no other key
  // ---------------------------------------------------------------------------

  /** The key of a position below the data. */
  ghost predicate KeyOfData(k: string, data: Json) {
    exists pos, v :: IsLeaf(data, pos, v) && k == KeyOf("", ["data"] + pos)
  }

  lemma EnvelopeKeys(tree: Json, summary: string, out: map<string, Scalar>, head: map<string, Scalar>,
                     weblog: map<string, Scalar>, data: Json, k: string)
    requires FlatLeaves(tree, summary, out) && tree == Envelope(head, weblog, data) && k in out
    requires head.Keys == {"id", "event", "timestamp"}
    ensures (summary != "" && k in {"text", "content"}) || KeyOfField(k, "", head) || KeyOfField(k, "weblog_", weblog) || KeyOfData(k, data)
  {
    hide IsLeaf, KeyOf, Envelope;
    if Has("", tree, k, out[k]) {
      var pos :| IsLeaf(tree, pos, out[k]) && KeyOf("", pos) == k;
      EnvelopeLeaves(head, weblog, data, pos, out[k]);
      if pos[0] == "data" {
        assert ["data"] + pos[1..] == pos;
      } else if pos[0] == "weblog" {
        WeblogLeaves(head, weblog, data, pos, out[k]);
        assert pos == ["weblog", pos[1]];
        KeyOfTwo("weblog", pos[1]);
        assert "weblog" + "_" == "weblog_";
      } else {
        assert pos == [pos[0]];
        KeyOfOne(pos[0]);
        assert "" + pos[0] == pos[0];
      }
    }
  }

  lemma WeblogLeaves(head: map<string, Scalar>, weblog: map<string, Scalar>, data: Json, pos: Position, v: Scalar)
    requires IsLeaf(Envelope(head, weblog, data), pos, v) && pos != [] && pos[0] == "weblog"
    ensures |pos| == 2 && pos[1] in weblog
  {
    var node := Envelope(head, weblog, data);
    assert IsLeaf(node.fields["weblog"], pos[1..], v);
    LeavesOf(weblog, pos[1..], v);
  }

  lemma SimpleKeys(fields: map<string, Scalar>, k: string)
    requires KeyOfData(k, Leaves(fields))
    ensures KeyOfField(k, "data_", fields)
  {
    hide IsLeaf, KeyOf;
    var pos, v :| IsLeaf(Leaves(fields), pos, v) && k == KeyOf("", ["data"] + pos);
    LeavesOf(fields, pos, v);
    assert ["data"] + pos == ["data", pos[0]];
    KeyOfTwo("data", pos[0]);
    assert "data" + "_" == "data_";
  }

  lemma TextKey(list: string, values: seq<string>, pos: Position, v: Scalar, k: string)
    requires IsLeaf(Texts(values), pos, v) && k == KeyOf("", ["data"] + ([list] + pos))
    ensures KeyOfText(k, "data_" + list + "_", values)
  {
    var items := Texts(values).items;
    var i: nat :| i < |items| && pos[0] == Itoa(i) && IsLeaf(items[i], pos[1..], v);
    assert items[i] == Leaf(Text(values[i])) && pos[1..] == [];
    hide IsLeaf, KeyOf, Itoa, IsNumeral, Texts;
    ItoaIsNumeral(i);
    assert ["data"] + ([list] + pos) == ["data", list, pos[0]];
    KeyOfThree("data", list, pos[0]);
    assert "data" + "_" + list + "_" == "data_" + list + "_";
  }

  lemma EntryChild(fields: map<string, Scalar>, author: map<string, Scalar>, categories: seq<string>, tags: seq<string>,
                   pos: Position, v: Scalar)
    requires fields.Keys == ENTRY_FIELDS && IsLeaf(EntryData(fields, author, categories, tags), pos, v)
    ensures pos != []
    ensures pos[0] == "author" ==> IsLeaf(Leaves(author), pos[1..], v)
    ensures pos[0] == "categories" ==> IsLeaf(Texts(categories), pos[1..], v)
    ensures pos[0] == "tags" ==> IsLeaf(Texts(tags), pos[1..], v)
    ensures pos[0] !in {"author", "categories", "tags"} ==> |pos| == 1 && pos[0] in fields
  {
    hide Leaves, Texts;
    EntryLeaves(fields, author, categories, tags, pos, v);
  }

  lemma EntryKeys(fields: map<string, Scalar>, author: map<string, Scalar>, categories: seq<string>, tags: seq<string>, k: string)
    requires fields.Keys == ENTRY_FIELDS && KeyOfData(k, EntryData(fields, author, categories, tags))
    ensures KeyOfField(k, "data_", fields) || KeyOfField(k, "data_author_", author)
         || KeyOfText(k, "data_categories_", categories) || KeyOfText(k, "data_tags_", tags)
  {
    hide KeyOf, IsLeaf, KeyOfText, EntryData, Leaves, Texts;
    var pos, v :| IsLeaf(EntryData(fields, author, categories, tags), pos, v) && k == KeyOf("", ["data"] + pos);
    EntryChild(fields, author, categories, tags, pos, v);
    var rest := pos[1..];
    assert pos == [pos[0]] + rest;
    if pos[0] == "author" {
      AuthorKey(author, rest, v, k);
    } else if pos[0] == "categories" {
      TextKey("categories", categories, rest, v, k);
      assert "data_" + "categories" + "_" == "data_categories_";
    } else if pos[0] == "tags" {
      TextKey("tags", tags, rest, v, k);
      assert "data_" + "tags" + "_" == "data_tags_";
    } else {
      assert ["data"] + pos == ["data", pos[0]];
      KeyOfTwo("data", pos[0]);
      assert "data" + "_" == "data_";
    }
  }

  lemma AuthorKey(author: map<string, Scalar>, pos: Position, v: Scalar, k: string)
    requires IsLeaf(Leaves(author), pos, v) && k == KeyOf("", ["data"] + (["author"] + pos))
    ensures KeyOfField(k, "data_author_", author)
  {
    hide KeyOf;
    LeavesOf(author, pos, v);
    assert ["data"] + (["author"] + pos) == ["data", "author", pos[0]];
    KeyOfThree("data", "author", pos[0]);
    assert "data" + "_" + "author" + "_" == "data_author_";
  }

  // ---------------------------------------------------------------------------
  // The flat payloads
  // ---------------------------------------------------------------------------

  lemma EntryValues(tree: Json, summary: string, out: map<string, Scalar>, head: map<string, Scalar>, weblog: map<string, Scalar>,
                    fields: map<string, Scalar>, author: map<string, Scalar>, categories: seq<string>, tags: seq<string>)
    requires FlatLeaves(tree, summary, out) && tree == Envelope(head, weblog, EntryData(fields, author, categories, tags))
    requires fields.Keys == ENTRY_FIELDS
    ensures FieldsAt(out, "data_", fields) && FieldsAt(out, "data_author_", author)
    ensures TextsAt(out, "data_categories_", categories) && TextsAt(out, "data_tags_", tags)
  {
    var data := EntryData(fields, author, categories, tags);
    hide FlatLeaves, Envelope, FieldsAt, TextsAt, Leaves, Texts, EntryData, HasFields;
    EntryParts(fields, author, categories, tags);
    SimpleDataIsFlat(tree, summary, out, head, weblog, data, fields);
    AuthorIsFlat(tree, summary, out, head, weblog, data, author);
    ListIsFlat(tree, summary, out, head, weblog, data, "categories", categories);
    ListIsFlat(tree, summary, out, head, weblog, data, "tags", tags);
    assert "data_" + "categories" + "_" == "data_categories_" && "data_" + "tags" + "_" == "data_tags_";
  }

  lemma EntryIsFlat(tree: Json, summary: string, out: map<string, Scalar>, head: map<string, Scalar>, weblog: map<string, Scalar>,
                    fields: map<string, Scalar>, author: map<string, Scalar>, categories: seq<string>, tags: seq<string>)
    requires FlatLeaves(tree, summary, out) && IsEntry(tree, head, weblog, fields, author, categories, tags)
    ensures FlatEntry(out, summary, head, weblog, fields, author, categories, tags)
  {
    var data := EntryData(fields, author, categories, tags);
    assert SummaryAt(out, summary);
    hide FlatLeaves, Envelope, EntryData, FieldsAt, TextsAt, KeyOfField, KeyOfText, KeyOfData, SummaryAt;
    EnvelopeIsFlat(tree, summary, out, head, weblog, data);
    EntryValues(tree, summary, out, head, weblog, fields, author, categories, tags);
    forall k | k in out
      ensures (summary != "" && k in {"text", "content"})
         || KeyOfField(k, "", head) || KeyOfField(k, "weblog_", weblog) || KeyOfField(k, "data_", fields)
         || KeyOfField(k, "data_author_", author)
         || KeyOfText(k, "data_categories_", categories) || KeyOfText(k, "data_tags_", tags)
    {
      EnvelopeKeys(tree, summary, out, head, weblog, data, k);
      if KeyOfData(k, data) { EntryKeys(fields, author, categories, tags, k); }
    }
  }

  lemma EntryParts(fields: map<string, Scalar>, author: map<string, Scalar>, categories: seq<string>, tags: seq<string>)
    requires fields.Keys == ENTRY_FIELDS
    ensures var data := EntryData(fields, author, categories, tags);
      && data.Object? && HasFields(data, fields)
      && {"author", "categories", "tags"} <= data.fields.Keys && data.fields["author"] == Leaves(author)
      && data.fields["categories"] == Texts(categories) && data.fields["tags"] == Texts(tags)
  {
    hide Leaves, Texts;
  }

  lemma SimpleIsFlat(tree: Json, summary: string, out: map<string, Scalar>, head: map<string, Scalar>, weblog: map<string, Scalar>,
                     fields: map<string, Scalar>)
    requires FlatLeaves(tree, summary, out) && IsSimple(tree, head, weblog, fields)
    ensures FlatSimple(out, summary, head, weblog, fields)
  {
    assert SummaryAt(out, summary);
    assert HasFields(Leaves(fields), fields);
    hide FlatLeaves, Envelope, FieldsAt, KeyOfField, KeyOfData, HasFields, SummaryAt;
    EnvelopeIsFlat(tree, summary, out, head, weblog, Leaves(fields));
    SimpleDataIsFlat(tree, summary, out, head, weblog, Leaves(fields), fields);
    forall k | k in out
      ensures (summary != "" && k in {"text", "content"})
         || KeyOfField(k, "", head) || KeyOfField(k, "weblog_", weblog) || KeyOfField(k, "data_", fields)
    {
      EnvelopeKeys(tree, summary, out, head, weblog, Leaves(fields), k);
      if KeyOfData(k, Leaves(fields)) { SimpleKeys(fields, k); }
    }
  }

  /** The flat payload: one key for every leaf, and the summary twice, which hides none
      of them; key by key for the payloads there are. */
  method FlattenPayload(tree: Json, summary: string) returns (out: map<string, Scalar>)
    requires IsPayload(tree)
    ensures forall p, v :: IsLeaf(tree, p, v) ==> KeyOf("", p) in out && out[KeyOf("", p)] == v
    ensures forall k :: k in out ==>
              (k in {"text", "content"} && summary != "" && out[k] == Text(summary)) || Has("", tree, k, out[k])
    ensures SummaryAt(out, summary)
    ensures forall head, weblog, fields, author, categories, tags ::
              IsEntry(tree, head, weblog, fields, author, categories, tags) ==>
                FlatEntry(out, summary, head, weblog, fields, author, categories, tags)
    ensures forall head, weblog, fields :: IsSimple(tree, head, weblog, fields) ==> FlatSimple(out, summary, head, weblog, fields)
  {
    hide IsPayload, IsLeaf, KeyOf, Written, Visited, Has, IsEntry, IsSimple, FlatEntry, FlatSimple;
    var sink := new Sink();
    FlattenInto("", tree, sink);
    out := sink.out;
    VisitedIsWritten("", tree, map[], out);
    PayloadIsExact(tree, out);
    if summary != "" {
      out := out["text" := Text(summary)];
      out := out["content" := Text(summary)];
    }
    assert FlatLeaves(tree, summary, out);
    forall head, weblog, fields, author, categories, tags | IsEntry(tree, head, weblog, fields, author, categories, tags)
      ensures FlatEntry(out, summary, head, weblog, fields, author, categories, tags)
    {
      EntryIsFlat(tree, summary, out, head, weblog, fields, author, categories, tags);
    }
    forall head, weblog, fields | IsSimple(tree, head, weblog, fields) ensures FlatSimple(out, summary, head, weblog, fields) {
      SimpleIsFlat(tree, summary, out, head, weblog, fields);
    }
  }

  lemma PayloadIsExact(tree: Json, out: map<string, Scalar>)
    requires IsPayload(tree) && Written("", tree, map[], out)
    ensures forall p, v :: IsLeaf(tree, p, v) ==>
              KeyOf("", p) in out && out[KeyOf("", p)] == v && KeyOf("", p) != "text" && KeyOf("", p) != "content"
    ensures forall k :: k in out ==> Has("", tree, k, out[k])
  {
    hide IsPayload, IsLeaf, KeyOf, Written, DistinctKeys, Has;
    PayloadKeysAreDistinct(tree);
    FlatIsExact(tree, out);
  }
}
