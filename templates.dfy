/** The entry template registry: the two preset templates, the lookup by id
    with its fallback to the default template, and the list of all
    templates in registration order. */
module Templates {
  import opened Strs

  datatype FieldType = Text | Textarea | Tags | Markdown | ImageField

  /** `FieldConfig` without its display-only `displayConfig`; `caption` is
      its `label`. */
  datatype Field = Field(key: string, caption: string, kind: FieldType, required: bool, placeholder: Option<string>)

  /** `CardLayout` */
  datatype Layout = Layout(headerFields: seq<string>, bodyFields: seq<string>, footerFields: Option<seq<string>>)

  datatype Category = Language | Knowledge | Professional

  /** `HighlightStyle` */
  datatype Highlight = Highlight(defaultColor: string, allowCustomColor: bool)

  /** `EntryTemplate` */
  datatype Template = Template(
    id: string,
    name: string,
    description: string,
    category: Category,
    fields: seq<Field>,
    cardLayout: Layout,
    highlightStyle: Highlight)

  const EnglishReading: Template := Template(
    "english-reading",
    "英语精读",
    "适用于英语文章精读，词汇学习",
    Language,
    [
      Field("word", "单词", Text, true, None),
      Field("matchPattern", "匹配模式", Text, false,
        Some("变形词，用逗号分隔（如：erupted, erupts）；支持跨词索引（如：explain...in）")),
      Field("phonetic", "音标", Text, false, None),
      Field("partOfSpeech", "词性", Text, false, Some("如：n., v., adj.")),
      Field("definition", "英文释义", Textarea, true, None),
      Field("translation", "中文释义", Text, true, None),
      Field("examples", "例句", Tags, false, Some("每行一个例句")),
      Field("image", "配图", ImageField, false, None)
    ],
    Layout(["word", "phonetic", "partOfSpeech"], ["definition", "translation", "examples", "image"], None),
    Highlight("#E2B933", true))

  const KnowledgeNotes: Template := Template(
    "knowledge-notes",
    "读书知识笔记",
    "适用于知识性书籍的术语解释、概念梳理",
    Knowledge,
    [
      Field("word", "术语/概念", Text, true, None),
      Field("matchPattern", "匹配模式", Text, false,
        Some("相关表述，用逗号分隔；支持跨词索引（如：concept...relation）")),
      Field("explanation", "名词解释", Textarea, true, None),
      Field("extendedReading", "扩展阅读", Markdown, false, Some("支持 Markdown 格式，可添加链接、列表等")),
      Field("referenceLink", "参考链接", Tags, false, Some("每行一个链接")),
      Field("relatedConcepts", "相关概念", Tags, false, Some("每行一个相关概念")),
      Field("sourceReference", "原文参考", Text, false, Some("页码、章节等")),
      Field("image", "配图", ImageField, false, None)
    ],
    Layout(["word"], ["explanation", "extendedReading", "referenceLink", "relatedConcepts", "sourceReference", "image"], None),
    Highlight("#D4AF37", true))

  /** `TEMPLATES`, as its keys and values in the order they are written. */
  const Registry: seq<(string, Template)> := [
    ("english-reading", EnglishReading),
    ("knowledge-notes", KnowledgeNotes)
  ]

  /** `DEFAULT_TEMPLATE` */
  const DefaultTemplate: string := "english-reading"

  /** `TEMPLATES[key]`: the value registered under `key`, if any. */
  function Lookup(entries: seq<(string, Template)>, key: string): (r: Option<Template>)
    ensures r.Some? <==> exists k :: 0 <= k < |entries| && entries[k].0 == key
    ensures r.Some? ==> exists k :: 0 <= k < |entries| && entries[k] == (key, r.value)
  {
    if entries == [] then None
    else if entries[0].0 == key then Some(entries[0].1)
    else
      var r := Lookup(entries[1..], key);
      assert forall k :: 1 <= k < |entries| ==> entries[k] == entries[1..][k - 1];
      r
  }

  function Keys(entries: seq<(string, Template)>): (r: seq<string>)
    ensures |r| == |entries|
    ensures forall k :: 0 <= k < |entries| ==> r[k] == entries[k].0
  {
    if entries == [] then [] else [entries[0].0] + Keys(entries[1..])
  }

  /** `getTemplate(templateId)`: the template registered under the id, or
      else the default one. */
  function GetTemplate(templateId: string): (t: Template)
    ensures Lookup(Registry, templateId).Some? ==> t == Lookup(Registry, templateId).value
    ensures Lookup(Registry, templateId).None? ==> t == EnglishReading
  {
    match Lookup(Registry, templateId)
    case Some(t) => t
    case None =>
      assert Registry[0].0 == DefaultTemplate;
      Lookup(Registry, DefaultTemplate).value
  }

  /** `getTemplateList()`: `Object.values(TEMPLATES)`. */
  function GetTemplateList(): (r: seq<Template>)
    ensures |r| == |Registry|
    ensures forall k :: 0 <= k < |Registry| ==> r[k] == Registry[k].1
  {
    Map(Registry, (e: (string, Template)) => e.1)
  }

  /** The default key is registered. */
  lemma DefaultRegistered()
    ensures DefaultTemplate in Keys(Registry)
    ensures Lookup(Registry, DefaultTemplate) == Some(EnglishReading)
  {
  }

  /** The registered keys are the two preset ids, without repetition. */
  lemma KeysDistinct()
    ensures Keys(Registry) == ["english-reading", "knowledge-notes"]
    ensures forall i, j :: 0 <= i < j < |Registry| ==> Registry[i].0 != Registry[j].0
  {
    assert Registry[0].0[0] == 'e' && Registry[1].0[0] == 'k';
  }

  /** Every template's `id` is the key it is registered under. */
  lemma IdsMatchKeys()
    ensures forall k :: 0 <= k < |Registry| ==> Registry[k].1.id == Registry[k].0
  {
  }

  /** A key looks up the template registered under it. */
  lemma LookupRegistered(k: nat)
    requires k < |Registry|
    ensures Lookup(Registry, Registry[k].0) == Some(Registry[k].1)
  {
    KeysDistinct();
  }

  /** `getTemplate` gives the template registered under a known id, whose
      own `id` is that id; any other id gives the default template. */
  lemma GetTemplateSpec(templateId: string)
    ensures templateId in Keys(Registry) ==> GetTemplate(templateId).id == templateId
    ensures templateId !in Keys(Registry) ==> GetTemplate(templateId) == EnglishReading
  {
    if templateId in Keys(Registry) {
      var k :| 0 <= k < |Registry| && Keys(Registry)[k] == templateId;
      LookupRegistered(k);
      IdsMatchKeys();
    }
  }

  /** The list holds each template exactly once, and the lookup by its id
      gives it back. */
  lemma ListRoundTrip()
    ensures forall t :: t in GetTemplateList() ==> GetTemplate(t.id) == t
    ensures forall k :: 0 <= k < |Registry| ==> Registry[k].1 in GetTemplateList()
  {
    var list := GetTemplateList();
    forall t | t in list ensures GetTemplate(t.id) == t {
      var k :| 0 <= k < |list| && list[k] == t;
      IdsMatchKeys();
      LookupRegistered(k);
    }
  }

  /** The names a template declares. */
  function FieldKeys(t: Template): (r: seq<string>)
    ensures |r| == |t.fields|
  {
    Map(t.fields, (f: Field) => f.key)
  }

  /** Every name in a layout's header, body and footer is a declared field. */
  predicate LayoutDeclared(t: Template) {
    var keys := FieldKeys(t);
    && (forall f :: f in t.cardLayout.headerFields ==> f in keys)
    && (forall f :: f in t.cardLayout.bodyFields ==> f in keys)
    && (t.cardLayout.footerFields.Some? ==> forall f :: f in t.cardLayout.footerFields.value ==> f in keys)
  }

  /** The first field of a template is the required `word`. */
  predicate WordFirst(t: Template) {
    t.fields != [] && t.fields[0].key == "word" && t.fields[0].required
  }

  /** The English reading template lays out only fields it declares and
      starts with the required `word` field. */
  lemma EnglishReadingWellFormed()
    ensures LayoutDeclared(EnglishReading) && WordFirst(EnglishReading)
  {
    var t := EnglishReading;
    var keys := FieldKeys(t);
    assert keys[0] == "word" && keys[2] == "phonetic" && keys[3] == "partOfSpeech";
    assert keys[4] == "definition" && keys[5] == "translation" && keys[6] == "examples" && keys[7] == "image";
    assert t.cardLayout.headerFields == [keys[0], keys[2], keys[3]];
    assert t.cardLayout.bodyFields == [keys[4], keys[5], keys[6], keys[7]];
  }

  /** The knowledge notes template lays out only fields it declares and
      starts with the required `word` field. */
  lemma KnowledgeNotesWellFormed()
    ensures LayoutDeclared(KnowledgeNotes) && WordFirst(KnowledgeNotes)
  {
    var t := KnowledgeNotes;
    var keys := FieldKeys(t);
    assert keys[0] == "word" && keys[2] == "explanation" && keys[3] == "extendedReading";
    assert keys[4] == "referenceLink" && keys[5] == "relatedConcepts" && keys[6] == "sourceReference" && keys[7] == "image";
    assert t.cardLayout.headerFields == [keys[0]];
    assert t.cardLayout.bodyFields == [keys[2], keys[3], keys[4], keys[5], keys[6], keys[7]];
  }

  /** Every registered template lays out only fields it declares and starts
      with the required `word` field. */
  lemma TemplatesWellFormed()
    ensures forall t :: t in GetTemplateList() ==> LayoutDeclared(t) && WordFirst(t)
  {
    EnglishReadingWellFormed();
    KnowledgeNotesWellFormed();
    assert GetTemplateList() == [EnglishReading, KnowledgeNotes];
  }
}
