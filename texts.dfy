/** The text store of server.js: one JSON document `{content, open}` per name in
    the texts directory (`<name>.txt`), and the metadata object `textsMeta`
    (name to `{open: 0|1}`) kept in memory and rewritten to `.meta.json` after
    every change. The documents on disk are a map from name to document. */
module Texts {
  import opened Strings
  import opened Sanitizer

  /** The visibility flag of the metadata: 1 for an open (public) text, 0 otherwise. */
  type OpenFlag = f: int | 0 <= f <= 1

  /** A stored text document. */
  datatype Doc = Doc(content: string, open: bool)

  /** One entry of the text listing. */
  datatype TextInfo = TextInfo(name: string, open: OpenFlag)

  /** What a text read sends: the whole stored document as JSON, or its content
      as plain text. */
  datatype Rendered = JsonDocument(doc: Doc) | PlainText(content: string)

  type MetaMap = map<string, OpenFlag>
  type DocMap = map<string, Doc>

  /** `open ? 1 : 0` (server.js line 221). */
  function FlagOf(open: bool): (f: OpenFlag)
    ensures f == 1 <==> open
  {
    if open then 1 else 0
  }

  /** Content negotiation of both text reads (server.js lines 146-156 and 233-243):
      an Accept header naming `application/json` gets the stored document,
      anything else gets only its content. */
  function Negotiate(wantsJson: bool, doc: Doc): (r: Rendered)
    ensures r.JsonDocument? <==> wantsJson
    ensures r.JsonDocument? ==> r.doc == doc
    ensures r.PlainText? ==> r.content == doc.content
  {
    if wantsJson then JsonDocument(doc) else PlainText(doc.content)
  }

  /** A text the anonymous routes may show: its metadata flag is 1 and its document exists. */
  predicate IsPublic(meta: MetaMap, docs: DocMap, name: string) {
    name in meta && meta[name] == 1 && name in docs
  }

  /** The public read `GET /txt/<segment>` (server.js lines 141-158). `None` means
      the handler does not answer and the request falls through to the handlers after it. */
  function PublicText(meta: MetaMap, docs: DocMap, segment: string, wantsJson: bool): (r: Option<Rendered>)
    ensures r.Some? <==> IsPublic(meta, docs, Sanitize(segment))
    ensures r.Some? ==> r.value == Negotiate(wantsJson, docs[Sanitize(segment)])
  {
    var name := Sanitize(segment);
    if IsPublic(meta, docs, name) then Some(Negotiate(wantsJson, docs[name])) else None
  }

  /** `name.endsWith('.html') ? name.slice(0, -5) : name` (server.js line 163). */
  function HtmlBase(name: string): (base: string)
    ensures EndsWith(name, ".html") ==> base + ".html" == name
    ensures !EndsWith(name, ".html") ==> base == name
  {
    if EndsWith(name, ".html") then name[..|name| - 5] else name
  }

  /** The text name the HTML route serves for a sanitized name: `<base>.html`. */
  function HtmlKey(name: string): (key: string)
    ensures EndsWith(key, ".html")
  {
    HtmlBase(name) + ".html"
  }

  /** The public HTML read `GET /h/<segment>` (server.js lines 161-170): the document
      of name `<base>.html` (file `<base>.html.txt`) when its flag is 1 and it exists;
      `None` is the handler's 404. */
  function PublicHtml(meta: MetaMap, docs: DocMap, segment: string): (r: Option<string>)
    ensures r.Some? <==> IsPublic(meta, docs, HtmlKey(Sanitize(segment)))
    ensures r.Some? ==> r.value == docs[HtmlKey(Sanitize(segment))].content
  {
    var key := HtmlKey(Sanitize(segment));
    if IsPublic(meta, docs, key) then Some(docs[key].content) else None
  }

  /** The authenticated read `GET /txt/<segment>` (server.js lines 227-244): `None`
      is the handler's 404. The metadata is not consulted. */
  function ReadText(docs: DocMap, segment: string, wantsJson: bool): (r: Option<Rendered>)
    ensures r.Some? <==> Sanitize(segment) in docs
    ensures r.Some? ==> r.value == Negotiate(wantsJson, docs[Sanitize(segment)])
  {
    var name := Sanitize(segment);
    if name in docs then Some(Negotiate(wantsJson, docs[name])) else None
  }

  /** The listing `GET /txts` (server.js lines 247-252): the entries of the metadata,
      whether or not their documents exist. */
  function ListTexts(meta: MetaMap): (r: set<TextInfo>)
    ensures forall t :: t in r <==> t.name in meta && meta[t.name] == t.open
  {
    set name | name in meta :: TextInfo(name, meta[name])
  }

  /** The metadata file holds the in-memory metadata; before the first write it
      is absent and the metadata empty. */
  predicate MetaPersisted(meta: MetaMap, persisted: Option<MetaMap>) {
    persisted == Some(meta) || (persisted == None && meta == map[])
  }

  class TextStore {
    /** `textsMeta` in memory. */
    var meta: MetaMap
    /** The contents of `.meta.json`: `None` while the file does not exist. */
    var persisted: Option<MetaMap>
    /** The `<name>.txt` documents of the texts directory. */
    var docs: DocMap

    ghost predicate Valid()
      reads this
    {
      MetaPersisted(meta, persisted)
    }

    /** Startup (server.js line 15): the metadata is read from `.meta.json` if it
        exists, and is empty otherwise. */
    constructor Load(metaFile: Option<MetaMap>, stored: DocMap)
      ensures Valid()
      ensures persisted == metaFile && docs == stored
      ensures meta == (if metaFile.Some? then metaFile.value else map[])
    {
      persisted := metaFile;
      docs := stored;
      meta := if metaFile.Some? then metaFile.value else map[];
    }

    /** `POST /txt/<segment>` (server.js lines 217-224): writes the document,
        sets the flag and rewrites the metadata file. */
    method Save(segment: string, content: string, open: bool)
      requires Valid()
      modifies this
      ensures Valid()
      ensures docs == old(docs)[Sanitize(segment) := Doc(content, open)]
      ensures meta == old(meta)[Sanitize(segment) := FlagOf(open)]
      ensures persisted == Some(meta)
    {
      var name := Sanitize(segment);
      docs := docs[name := Doc(content, open)];
      meta := meta[name := FlagOf(open)];
      persisted := Some(meta);
    }

    /** `DELETE /txt/<segment>` (server.js lines 255-262): removes the document if
        present, drops the metadata entry and rewrites the metadata file. */
    method Delete(segment: string)
      requires Valid()
      modifies this
      ensures Valid()
      ensures docs == old(docs) - {Sanitize(segment)}
      ensures meta == old(meta) - {Sanitize(segment)}
      ensures persisted == Some(meta)
    {
      var name := Sanitize(segment);
      if name in docs {
        docs := docs - {name};
      }
      meta := meta - {name};
      persisted := Some(meta);
    }
  }

  /** After a save, both reads of that name see the saved document, and the public
      one exactly when it was saved open. */
  lemma {:induction false} SaveThenRead(meta: MetaMap, docs: DocMap, segment: string, content: string, open: bool, wantsJson: bool)
    ensures var name := Sanitize(segment);
            var m, d := meta[name := FlagOf(open)], docs[name := Doc(content, open)];
            && ReadText(d, segment, wantsJson) == Some(Negotiate(wantsJson, Doc(content, open)))
            && (PublicText(m, d, segment, wantsJson).Some? <==> open)
            && (open ==> PublicText(m, d, segment, wantsJson) == ReadText(d, segment, wantsJson))
  {
  }

  /** After a delete, no read finds that name and the listing has no entry for it. */
  lemma {:induction false} DeleteThenRead(meta: MetaMap, docs: DocMap, segment: string, wantsJson: bool)
    ensures var name := Sanitize(segment);
            var m, d := meta - {name}, docs - {name};
            && ReadText(d, segment, wantsJson).None?
            && PublicText(m, d, segment, wantsJson).None?
            && forall t :: t in ListTexts(m) ==> t.name != name
  {
  }

  /** The listing has one entry per metadata key, with that key's flag. */
  lemma {:induction false} ListingMatchesMeta(meta: MetaMap)
    ensures (set t | t in ListTexts(meta) :: t.name) == meta.Keys
    ensures forall t, u :: t in ListTexts(meta) && u in ListTexts(meta) && t.name == u.name ==> t == u
  {
    var names := set t | t in ListTexts(meta) :: t.name;
    forall name | name in meta ensures name in names {
      assert TextInfo(name, meta[name]) in ListTexts(meta);
    }
  }

  /** The HTML route serves `<base>.html` whether the segment carries `.html` or not. */
  lemma {:induction false} HtmlKeyOfBoth(base: string)
    requires !EndsWith(base, ".html")
    ensures HtmlKey(base) == base + ".html"
    ensures HtmlKey(base + ".html") == base + ".html"
  {
    var n := base + ".html";
    assert n[|n| - 5..] == ".html";
    assert n[..|n| - 5] == base;
  }

  /** A safe base name is served alike at `/h/<base>` and at `/h/<base>.html`,
      provided sanitizing leaves both segments alone (safe characters, no `..`,
      room for the suffix within 100 characters). */
  lemma {:induction false} HtmlRouteIgnoresSuffix(meta: MetaMap, docs: DocMap, base: string)
    requires AllSafe(base) && NoDotDot(base + ".html") && |base| <= MaxNameLength - 5
    requires !EndsWith(base, ".html")
    ensures PublicHtml(meta, docs, base) == PublicHtml(meta, docs, base + ".html")
  {
    var n := base + ".html";
    assert NoDotDot(base) by {
      forall i | 0 < i < |base| ensures !(base[i - 1] == '.' && base[i] == '.') {
        assert base[i - 1] == n[i - 1] && base[i] == n[i];
      }
    }
    assert AllSafe(n) by {
      forall i | 0 <= i < |n| ensures IsSafeChar(n[i]) {
        if i < |base| { assert n[i] == base[i]; }
      }
    }
    SanitizeFixedPoints(base);
    SanitizeFixedPoints(n);
    HtmlKeyOfBoth(base);
  }

  /** Saving an open text named `<base>.html` publishes it on the HTML route. */
  lemma {:induction false} SaveThenPublicHtml(meta: MetaMap, docs: DocMap, segment: string, content: string)
    requires EndsWith(Sanitize(segment), ".html")
    ensures var name := Sanitize(segment);
            PublicHtml(meta[name := 1], docs[name := Doc(content, true)], segment) == Some(content)
  {
    var name := Sanitize(segment);
    assert HtmlBase(name) + ".html" == name;
  }
}
