/** Comment dialects (the private Comment class) and the marker strings
    built from them (the private NamedComment class). */
module Comments {
  import opened Wrappers
  import opened Strings

  /** A comment syntax: the token that opens a comment and, for block
      comments, the token that closes it (`None` when Comment.End is null). */
  datatype Dialect = Dialect(start: string, end: Option<string>)

  const Razor := Dialect("@*", Some("*@"))
  const Slash := Dialect("//", None)
  const Text := Dialect("#", None)
  const Xml := Dialect("<!--", Some("-->"))

  /** The four dialects are well formed, and no two share a start token. */
  lemma DialectsDistinct()
    ensures WellFormed(Razor) && WellFormed(Slash) && WellFormed(Text) && WellFormed(Xml)
    ensures Razor.start != Slash.start && Razor.start != Text.start && Razor.start != Xml.start
    ensures Slash.start != Text.start && Slash.start != Xml.start && Text.start != Xml.start
  {
  }

  /** The extensions of each dialect, in the spelling the source compares against. */
  const SlashExtensions: set<string> := {".cs", ".js", ".ts", ".json", ".css", ".scss"}
  const XmlExtensions: set<string> := {".html", ".config", ".xproj", ".xml"}
  const RazorExtensions: set<string> := {".cshtml"}
  const TextExtensions: set<string> := {".ini", ".txt"}

  /** `extension` equals, ignoring case, some member of `group`. */
  predicate MatchesAny(extension: string, group: set<string>) {
    exists e :: e in group && EqualsIgnoreCase(extension, e)
  }

  /** A dialect whose tokens are non-empty, whose start token does not begin
      with white space and whose end token does not end with it. */
  predicate WellFormed(d: Dialect) {
    && d.start != []
    && !IsWhiteSpace(d.start[0])
    && (d.end.Some? ==> d.end.value != [] && !IsWhiteSpace(d.end.value[|d.end.value| - 1]))
  }

  /** Comment.GetComment: the dialect of a file extension, or null. */
  function GetComment(extension: string): (r: Option<Dialect>)
    ensures r.Some? ==> r.value in {Slash, Xml, Razor, Text} && WellFormed(r.value)
  {
    if || EqualsIgnoreCase(extension, ".cs")
       || EqualsIgnoreCase(extension, ".js")
       || EqualsIgnoreCase(extension, ".ts")
       || EqualsIgnoreCase(extension, ".json")
       || EqualsIgnoreCase(extension, ".css")
       || EqualsIgnoreCase(extension, ".scss")
    then
      Some(Slash)
    else if || EqualsIgnoreCase(extension, ".html")
            || EqualsIgnoreCase(extension, ".config")
            || EqualsIgnoreCase(extension, ".xproj")
            || EqualsIgnoreCase(extension, ".xml")
    then
      Some(Xml)
    else if EqualsIgnoreCase(extension, ".cshtml") then
      Some(Razor)
    else if EqualsIgnoreCase(extension, ".ini") || EqualsIgnoreCase(extension, ".txt") then
      Some(Text)
    else
      None
  }

  /** Two extensions that differ only in case get the same dialect. */
  lemma GetCommentIgnoresCase(a: string, b: string)
    requires EqualsIgnoreCase(a, b)
    ensures GetComment(a) == GetComment(b)
  {
  }

  /** The upper-case forms of the `//` extensions. */
  lemma UpperSlashExtensions()
    ensures Upper(".cs") == ".CS" && Upper(".js") == ".JS" && Upper(".ts") == ".TS"
    ensures Upper(".json") == ".JSON" && Upper(".css") == ".CSS" && Upper(".scss") == ".SCSS"
  {
  }

  /** The upper-case forms of the other extensions. */
  lemma UpperOtherExtensions()
    ensures Upper(".html") == ".HTML" && Upper(".config") == ".CONFIG"
    ensures Upper(".xproj") == ".XPROJ" && Upper(".xml") == ".XML"
    ensures Upper(".cshtml") == ".CSHTML" && Upper(".ini") == ".INI" && Upper(".txt") == ".TXT"
  {
  }

  /** `//` comments are used exactly for the `//` extensions. */
  lemma GetCommentSlash(extension: string)
    ensures GetComment(extension) == Some(Slash) <==> MatchesAny(extension, SlashExtensions)
  {
    UpperSlashExtensions();
    UpperOtherExtensions();
  }

  /** `<!-- -->` comments are used exactly for the XML-like extensions. */
  lemma GetCommentXml(extension: string)
    ensures GetComment(extension) == Some(Xml) <==> MatchesAny(extension, XmlExtensions)
  {
    UpperSlashExtensions();
    UpperOtherExtensions();
  }

  /** `@* *@` comments are used exactly for Razor views. */
  lemma GetCommentRazor(extension: string)
    ensures GetComment(extension) == Some(Razor) <==> MatchesAny(extension, RazorExtensions)
  {
    UpperSlashExtensions();
    UpperOtherExtensions();
  }

  /** `#` comments are used exactly for the text extensions. */
  lemma GetCommentText(extension: string)
    ensures GetComment(extension) == Some(Text) <==> MatchesAny(extension, TextExtensions)
  {
    UpperSlashExtensions();
    UpperOtherExtensions();
  }

  /** The dialect table: an extension gets a dialect exactly when it equals,
      ignoring case, one of that dialect's extensions, and no dialect otherwise. */
  lemma GetCommentByExtension(extension: string)
    ensures GetComment(extension) == Some(Slash) <==> MatchesAny(extension, SlashExtensions)
    ensures GetComment(extension) == Some(Xml) <==> MatchesAny(extension, XmlExtensions)
    ensures GetComment(extension) == Some(Razor) <==> MatchesAny(extension, RazorExtensions)
    ensures GetComment(extension) == Some(Text) <==> MatchesAny(extension, TextExtensions)
    ensures GetComment(extension).None? <==>
              && !MatchesAny(extension, SlashExtensions)
              && !MatchesAny(extension, XmlExtensions)
              && !MatchesAny(extension, RazorExtensions)
              && !MatchesAny(extension, TextExtensions)
  {
    GetCommentSlash(extension);
    GetCommentXml(extension);
    GetCommentRazor(extension);
    GetCommentText(extension);
  }

  /** The two marker strings of a named block (NamedComment.Start and .End). */
  datatype Markers = Markers(start: string, end: string)

  /** The text that follows `$` in a marker: a space and the end token, or nothing. */
  function EndSuffix(d: Dialect): string {
    if d.end.None? || d.end.value == "" then "" else " " + d.end.value
  }

  /** new NamedComment(name, comment). */
  function NamedComment(name: string, d: Dialect): (m: Markers)
    ensures StartsWith(m.start, d.start) && StartsWith(m.end, d.start)
    ensures EndsWith(m.start, EndSuffix(d)) && EndsWith(m.end, EndSuffix(d))
    ensures m.start != m.end
  {
    var suffix := EndSuffix(d);
    Markers(d.start + " $Start-" + name + "$" + suffix, d.start + " $End-" + name + "$" + suffix)
  }

  /** The start marker names its block: two names with the same start marker are equal. */
  lemma StartMarkerDeterminesName(a: string, b: string, d: Dialect)
    requires NamedComment(a, d).start == NamedComment(b, d).start
    ensures a == b
  {
    var s, p := NamedComment(a, d).start, |d.start| + |" $Start-"|;
    assert |a| == |b|;
    assert s[p..p + |a|] == a;
    assert NamedComment(b, d).start[p..p + |b|] == b;
  }

  /** The end marker names its block: two names with the same end marker are equal. */
  lemma EndMarkerDeterminesName(a: string, b: string, d: Dialect)
    requires NamedComment(a, d).end == NamedComment(b, d).end
    ensures a == b
  {
    var s, p := NamedComment(a, d).end, |d.start| + |" $End-"|;
    assert |a| == |b|;
    assert s[p..p + |a|] == a;
    assert NamedComment(b, d).end[p..p + |b|] == b;
  }

  /** No start marker, whatever its block's name, is the end marker of any block. */
  lemma StartMarkerIsNeverEndMarker(a: string, b: string, d: Dialect)
    ensures NamedComment(a, d).start != NamedComment(b, d).end
  {
    // the two differ in the character after "<start token> $"
    var k := |d.start| + 2;
    assert NamedComment(a, d).start[k] == 'S';
    assert NamedComment(b, d).end[k] == 'E';
  }
}
