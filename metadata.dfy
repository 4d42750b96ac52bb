/**
 * The book metadata cascade: which ordered list of content files a build of
 * one work, format, optional language and active variant uses.
 *
 * A work's YAML lives under `<cwd>/_data/works/<book>/`: `default.yml`, an
 * optional `<language>/default.yml` per translation, and optional variant
 * files `<variant>.yml` (no language) or `<language>/<variant>.yml`. A more
 * specific document that defines `products[format].files` replaces the list
 * wholesale; lists are never merged.
 */
module Metadata {
  import opened Js

  /** An entry of a `files` list: a bare name, or a one-key object `{name: title}`. */
  datatype FileEntry = Name(name: string) | Titled(key: string, title: string)

  /** `products[format]`, with its `files` list if that is present and truthy. */
  datatype Product = Product(files: Option<seq<FileEntry>>)

  /** A loaded YAML document, with its `products` map if it has one. */
  datatype Document = Document(products: Option<map<string, Product>>)

  /**
   * The YAML files that exist, by path, each with what `yaml.load` returns
   * for it (`None` when the document is empty and loads to null).
   */
  type Store = map<string, Option<Document>>

  /** The project settings document, `None` when `projectSettings()` returns nothing. */
  datatype Settings = Settings(activeVariant: Option<string>)

  /** The inputs of one lookup: working directory, book, language and requested format. */
  datatype Request = Request(cwd: string, book: Option<string>, language: Option<string>, format: Option<string>)

  /** The format looked up: the requested one, or the caller's fallback when none is given. */
  function Format(req: Request, fallback: string): (f: string)
    ensures Truthy(req.format) ==> f == req.format.value
    ensures !Truthy(req.format) ==> f == fallback
  {
    OrElse(req.format, fallback)
  }

  /** The active variant: `settings['active-variant']` when truthy; a missing settings document throws. */
  function ActiveVariant(settings: Option<Settings>): (r: Result<Option<string>>)
    ensures r.Err? <==> settings.None?
    ensures r.Ok? && r.value.Some? ==> r.value.value != ""
    ensures r.Ok? ==> (r.value.Some? <==> Truthy(settings.value.activeVariant))
  {
    match settings
    case None => Err(TypeError)
    case Some(s) => if Truthy(s.activeVariant) then Ok(Some(s.activeVariant.value)) else Ok(None)
  }

  function WorkFolder(req: Request): string
  {
    req.cwd + "/_data/works/" + OrElse(req.book, "book") + "/"
  }

  function DefaultPath(req: Request): string
  {
    WorkFolder(req) + "default.yml"
  }

  function TranslationPath(req: Request): string
    requires Truthy(req.language)
  {
    WorkFolder(req) + req.language.value + "/default.yml"
  }

  /** Where the variant document is looked for: beside the translation when a language is set. */
  function VariantPath(req: Request, variant: string): (p: string)
    ensures Truthy(req.language) ==> p == WorkFolder(req) + req.language.value + "/" + variant + ".yml"
    ensures !Truthy(req.language) ==> p == WorkFolder(req) + variant + ".yml"
  {
    if Truthy(req.language) then WorkFolder(req) + req.language.value + "/" + variant + ".yml"
    else WorkFolder(req) + variant + ".yml"
  }

  /**
   * The list a guarded lookup finds: the file exists, loads to a document,
   * and `products`, `products[format]` and `products[format].files` are all truthy.
   */
  function ListAt(store: Store, path: string, format: string): (r: Option<seq<FileEntry>>)
    ensures r.Some? ==> path in store && store[path].Some?
  {
    if path in store && store[path].Some? then
      var doc := store[path].value;
      if doc.products.Some? && format in doc.products.value then doc.products.value[format].files
      else None
    else None
  }

  /** Whether the unguarded `metadata.products[format].files` on the default document throws. */
  predicate DefaultLookupThrows(store: Store, path: string, format: string)
  {
    path !in store || store[path].None? || store[path].value.products.None?
    || format !in store[path].value.products.value
  }

  /** The documents the lookup reads, given the active variant. */
  function Consulted(req: Request, variant: Option<string>): (s: set<string>)
    ensures DefaultPath(req) in s
  {
    {DefaultPath(req)}
    + (if Truthy(req.language) then {TranslationPath(req)} else {})
    + (if variant.Some? then {VariantPath(req, variant.value)} else {})
  }

  /** The list chosen from the documents the lookup reads, once the default one has a list. */
  function Override(req: Request, variant: Option<string>, store: Store, format: string, base: seq<FileEntry>): seq<FileEntry>
  {
    var afterTranslation :=
      if Truthy(req.language) then ListAt(store, TranslationPath(req), format).GetOr(base) else base;
    if variant.Some? then ListAt(store, VariantPath(req, variant.value), format).GetOr(afterTranslation)
    else afterTranslation
  }

  /**
   * `fileList`: read the active variant, then the default document's list
   * (`readFileSync` throwing when the document is missing, the property
   * reads throwing when it loads to null or lacks `products[format]`; returning
   * `[]` when the list is falsy), then let the translation and the variant
   * document replace it.
   */
  function Cascade(fallback: string, req: Request, settings: Option<Settings>, store: Store): (r: Result<seq<FileEntry>>)
    ensures r.Err? <==> settings.None? || DefaultLookupThrows(store, DefaultPath(req), Format(req, fallback))
    ensures settings.Some? && DefaultPath(req) !in store ==> r == Err(NoSuchFile(DefaultPath(req)))
    ensures r.Ok? && ListAt(store, DefaultPath(req), Format(req, fallback)).None? ==> r.value == []
    ensures r.Ok? && ListAt(store, DefaultPath(req), Format(req, fallback)).Some? ==>
      exists p :: p in Consulted(req, ActiveVariant(settings).value)
        && ListAt(store, p, Format(req, fallback)) == Some(r.value)
  {
    var format := Format(req, fallback);
    match ActiveVariant(settings)
    case Err(e) => Err(e)
    case Ok(variant) =>
      if DefaultPath(req) !in store then Err(NoSuchFile(DefaultPath(req)))
      else if DefaultLookupThrows(store, DefaultPath(req), format) then Err(TypeError)
      else
        match ListAt(store, DefaultPath(req), format)
        case None => Ok([])
        case Some(base) =>
          var files := Override(req, variant, store, format, base);
          assert ListAt(store, DefaultPath(req), format) == Some(base);
          if variant.Some? && ListAt(store, VariantPath(req, variant.value), format).Some? then
            assert VariantPath(req, variant.value) in Consulted(req, variant);
            Ok(files)
          else if Truthy(req.language) && ListAt(store, TranslationPath(req), format).Some? then
            assert TranslationPath(req) in Consulted(req, variant);
            Ok(files)
          else
            Ok(files)
  }

  // ---------------------------------------------------------------------------
  // Properties of the cascade

  /**
   * Precedence: the variant's list if its document defines one, else the
   * translation's, else the default's; and `[]` whenever the default has none.
   */
  lemma Precedence(fallback: string, req: Request, settings: Option<Settings>, store: Store)
    requires Cascade(fallback, req, settings, store).Ok?
    ensures
      var format := Format(req, fallback);
      var variant := ActiveVariant(settings).value;
      var r := Cascade(fallback, req, settings, store).value;
      var base := ListAt(store, DefaultPath(req), format);
      if base.None? then r == []
      else if variant.Some? && ListAt(store, VariantPath(req, variant.value), format).Some? then
        r == ListAt(store, VariantPath(req, variant.value), format).value
      else if Truthy(req.language) && ListAt(store, TranslationPath(req), format).Some? then
        r == ListAt(store, TranslationPath(req), format).value
      else r == base.value
  {
  }

  /** Two stores that agree on every consulted document give the same answer. */
  lemma DependsOnlyOnConsulted(fallback: string, req: Request, settings: Option<Settings>, s1: Store, s2: Store)
    requires settings.Some?
    requires forall p :: p in Consulted(req, ActiveVariant(settings).value) ==>
      (p in s1 <==> p in s2) && (p in s1 ==> s1[p] == s2[p])
    ensures Cascade(fallback, req, settings, s1) == Cascade(fallback, req, settings, s2)
  {
    var variant := ActiveVariant(settings).value;
    assert DefaultPath(req) in Consulted(req, variant);
    if Truthy(req.language) {
      assert TranslationPath(req) in Consulted(req, variant);
    }
    if variant.Some? {
      assert VariantPath(req, variant.value) in Consulted(req, variant);
    }
  }

  /**
   * With a language set, the work-level variant document `<work>/<variant>.yml`
   * is never read: adding, changing or removing it changes nothing (unless it
   * happens to be one of the documents that are read).
   */
  lemma NoParentVariantFallback(
    fallback: string, req: Request, variant: string, store: Store, other: Option<Document>)
    requires Truthy(req.language)
    requires variant != ""
    requires WorkFolder(req) + variant + ".yml" !in Consulted(req, Some(variant))
    ensures
      var settings := Some(Settings(Some(variant)));
      var parent := WorkFolder(req) + variant + ".yml";
      Cascade(fallback, req, settings, store) == Cascade(fallback, req, settings, store[parent := other])
      && Cascade(fallback, req, settings, store) == Cascade(fallback, req, settings, store - {parent})
  {
    var settings := Some(Settings(Some(variant)));
    var parent := WorkFolder(req) + variant + ".yml";
    DependsOnlyOnConsulted(fallback, req, settings, store, store[parent := other]);
    DependsOnlyOnConsulted(fallback, req, settings, store, store - {parent});
  }

  /** When the default document has no list for the format, the others are not read at all. */
  lemma NoDefaultListIgnoresOverrides(fallback: string, req: Request, settings: Option<Settings>, s1: Store, s2: Store)
    requires settings.Some?
    requires DefaultPath(req) in s1 && DefaultPath(req) in s2 && s1[DefaultPath(req)] == s2[DefaultPath(req)]
    requires !DefaultLookupThrows(s1, DefaultPath(req), Format(req, fallback))
    requires ListAt(s1, DefaultPath(req), Format(req, fallback)).None?
    ensures Cascade(fallback, req, settings, s1) == Cascade(fallback, req, settings, s2) == Ok([])
  {
  }

  /** An empty `active-variant` setting is the same as none. */
  lemma EmptyVariantIsNoVariant(fallback: string, req: Request, store: Store)
    ensures Cascade(fallback, req, Some(Settings(Some(""))), store)
         == Cascade(fallback, req, Some(Settings(None)), store)
  {
  }

  /** Leaving the format out, or giving `''`, looks up the fallback format. */
  lemma FallbackFormat(fallback: string, req: Request, settings: Option<Settings>, store: Store)
    requires !Truthy(req.format)
    requires fallback != ""
    ensures Cascade(fallback, req, settings, store)
         == Cascade(fallback, req.(format := Some(fallback)), settings, store)
  {
    var req' := req.(format := Some(fallback));
    assert WorkFolder(req) == WorkFolder(req');
  }

  /**
   * Work `novel`, language `fr`, active variant `abridged`: without
   * `novel/fr/abridged.yml` the French list is used even though
   * `novel/abridged.yml` defines its own list for the format.
   */
  lemma FrenchAbridgedExample(cwd: string, fr: seq<FileEntry>, abridged: seq<FileEntry>, parent: seq<FileEntry>)
    ensures
      var req := Request(cwd, Some("novel"), Some("fr"), Some("print-pdf"));
      var folder := cwd + "/_data/works/novel/";
      var doc := (l: seq<FileEntry>) => Some(Document(Some(map["print-pdf" := Product(Some(l))])));
      var store := map[folder + "default.yml" := doc(parent),
                       folder + "fr/default.yml" := doc(fr),
                       folder + "abridged.yml" := doc(abridged)];
      Cascade("print-pdf", req, Some(Settings(Some("abridged"))), store) == Ok(fr)
  {
    var req := Request(cwd, Some("novel"), Some("fr"), Some("print-pdf"));
    var folder := cwd + "/_data/works/novel/";
    assert WorkFolder(req) == folder;
    assert VariantPath(req, "abridged") == folder + "fr/abridged.yml";
    var doc := (l: seq<FileEntry>) => Some(Document(Some(map["print-pdf" := Product(Some(l))])));
    var store := map[folder + "default.yml" := doc(parent),
                     folder + "fr/default.yml" := doc(fr),
                     folder + "abridged.yml" := doc(abridged)];
    assert |folder + "fr/abridged.yml"| == |folder| + 15;
    assert |folder + "fr/default.yml"| == |folder| + 14;
    assert |folder + "abridged.yml"| == |folder| + 12;
    assert |folder + "default.yml"| == |folder| + 11;
    assert folder + "fr/abridged.yml" !in store;
    assert TranslationPath(req) == folder + "fr/default.yml";
    assert ListAt(store, DefaultPath(req), "print-pdf") == Some(parent);
    assert ListAt(store, TranslationPath(req), "print-pdf") == Some(fr);
    assert ListAt(store, VariantPath(req, "abridged"), "print-pdf") == None;
  }
}
