/** The two text forms of a dependency graph document denote one document
    (src/routes/graph.rs). */
module GraphForms {
  import opened Prelude
  import opened JsonText
  import Yaml
  import YamlRoundTrip
  import Toml
  import TomlRoundTrip

  /** What a document must avoid for both forms to carry it. */
  predicate Portable(members: seq<Member>) {
    var v := Object(members);
    !HasNull(v) && YamlRoundTrip.Laid(v) && !TomlRoundTrip.HasDel(v)
  }

  /** Both forms read back to the one document, up to top-level order, exactly
      when the document is portable. */
  lemma BothFormsDenoteOneDocumentIff(members: seq<Member>)
    requires WellFormed(Object(members))
    ensures
      var fromYaml, fromToml := Yaml.ParseDocument(Yaml.YamlDocument(members)), Toml.ReadToml(Toml.TomlText(members));
      Portable(members)
      <==> fromYaml == Some(Object(members)) && fromToml.Some? && TomlRoundTrip.SameMembers(fromToml.value, members)
  {
    hide Yaml.ParseDocument, Yaml.YamlDocument, Toml.ReadToml, Toml.TomlText, WellFormed, HasNull, TomlRoundTrip.HasDel, YamlRoundTrip.Laid;
    YamlRoundTrip.YamlReadsBackIff(members);
    TomlRoundTrip.TomlReadsBackIff(members);
  }

  /** Two portable documents with the same text, in either form, are the same
      document up to top-level order. */
  lemma TextDeterminesDocument(a: seq<Member>, b: seq<Member>)
    requires WellFormed(Object(a)) && WellFormed(Object(b)) && Portable(a) && Portable(b)
    requires Yaml.YamlDocument(a) == Yaml.YamlDocument(b) || Toml.TomlText(a) == Toml.TomlText(b)
    ensures TomlRoundTrip.SameMembers(a, b)
  {
    hide Yaml.ParseDocument, Yaml.YamlDocument, Toml.ReadToml, Toml.TomlText, WellFormed, Portable;
    BothFormsDenoteOneDocumentIff(a);
    BothFormsDenoteOneDocumentIff(b);
  }
}
