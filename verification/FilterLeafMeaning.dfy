/** What a leaf's parts stand for: properties, literals, folders by their components, needles, and hints. */
module FilterLeafMeaning {
  import opened Text
  import opened Json
  import opened FilterLeaf
  import opened FilterLeafForms
  import GitPaths

  // ---------- properties ----------

  /** The documented `file.` properties of a row. */
  function Documented(row: Row): map<string, Value> {
    var file := row.file;
    map["name" := Str(file.name), "basename" := Str(file.basename), "path" := Str(file.path),
        "folder" := Str(file.folder), "ext" := Str(file.ext), "size" := Num(Integer(file.size)),
        "ctime" := if file.ctime.Some? then Str(file.ctime.value) else Null,
        "mtime" := if file.mtime.Some? then Str(file.mtime.value) else Null,
        "tags" := Texts(row.tags), "links" := Texts(row.links), "embeds" := Texts(row.embeds),
        "backlinks" := Texts(row.backlinks), "properties" := Obj(row.frontmatter)]
  }

  function Texts(items: seq<string>): Value {
    Arr(seq(|items|, i requires 0 <= i < |items| => Str(items[i])))
  }

  /**
   * A `file.` name is a documented property or an error, a `formula.` name always an error, and any other
   * name a frontmatter key, with or without `note.` before it.
   */
  lemma PropertyMeaning(name: string, row: Row, path: FilterPath)
    ensures ResolveProperty("file." + name, row, path)
            == if name in Documented(row) then Result.Ok(Some(Documented(row)[name]))
               else Result.Err(UnsupportedFileProperty(path, name))
    ensures ResolveProperty("formula." + name, row, path) == Result.Err(FormulaReference(path, name))
    ensures ResolveProperty("note." + name, row, path) == Result.Ok(Get(row.frontmatter, name))
    ensures !("file." <= name) && !("formula." <= name) && !("note." <= name) ==>
              ResolveProperty(name, row, path) == Result.Ok(Get(row.frontmatter, name))
  {
    hide FileProperty, Documented;
    PrefixesApart(name);
    FilePropertiesAre(name, row);
  }

  lemma FilePropertiesAre(name: string, row: Row)
    ensures FileProperty(name, row)
            == if name in Documented(row) then Some(Documented(row)[name]) else None
  {
    assert StringList(row.tags) == Texts(row.tags) && StringList(row.links) == Texts(row.links);
    assert StringList(row.embeds) == Texts(row.embeds) && StringList(row.backlinks) == Texts(row.backlinks);
  }

  lemma PrefixesApart(name: string)
    ensures ("file." + name)[|"file."|..] == name && !("formula." <= "file." + name)
    ensures ("formula." + name)[|"formula."|..] == name
    ensures ("note." + name)[|"note."|..] == name && !("formula." <= "note." + name) && !("file." <= "note." + name)
  {
    assert ("file." + name)[1] == 'i' && "formula."[1] == 'o';
    assert ("note." + name)[0] == 'n' && "formula."[0] == 'f' && "file."[0] == 'f';
  }

  // ---------- literals ----------

  /** Quoted text of either kind, the three keywords, and otherwise a number or an error that names the text. */
  lemma LiteralMeaning(text: string, quote: char, path: FilterPath, numbers: NumberSyntax)
    requires IsQuote(quote)
    ensures ParseLiteral([quote] + text + [quote], path, numbers) == Result.Ok(Str(text))
    ensures ParseLiteral("true", path, numbers) == Result.Ok(Bool(true))
    ensures ParseLiteral("false", path, numbers) == Result.Ok(Bool(false))
    ensures ParseLiteral("null", path, numbers) == Result.Ok(Null)
    ensures text != "true" && text != "false" && text != "null" && (text == [] || !IsQuote(text[0])) ==>
              ParseLiteral(text, path, numbers)
              == match numbers(text)
                 case Some(number) => Result.Ok(number)
                 case None => Result.Err(UnsupportedFilterExpression(path, text))
  {
    var quoted := [quote] + text + [quote];
    assert quoted[1..|quoted| - 1] == text;
    assert "true"[0] == 't' && "false"[0] == 'f' && "null"[0] == 'n';
    assert "true"[1] == 'r' && "false"[1] == 'a' && "null"[1] == 'u';
  }

  // ---------- folders and needles ----------

  /**
   * Written out as paths, with any number of slashes after the folder: a row lies in a folder exactly when
   * the folder's components lead the row's folder's components, and in the root only when it is at the top.
   */
  lemma InFolderByComponents(row: GitPaths.Path, folder: GitPaths.Path, slashes: string)
    requires forall k :: 0 <= k < |slashes| ==> slashes[k] == '/'
    ensures InFolder(GitPaths.Render(row), GitPaths.Render(folder) + slashes) <==>
            if folder == [] then row == [] else folder <= row
  {
    hide GitPaths.Render, GitPaths.Slashed, TrimEndSlashes;
    var s, t := GitPaths.Render(folder), GitPaths.Render(row);
    RenderedEnd(folder);
    RenderedEnd(row);
    GitPaths.RenderedEmpty(folder);
    GitPaths.RenderedEmpty(row);
    SlashesTrimmed(s, slashes);
    if folder != [] && row != [] {
      GitPaths.RenderSlashed(folder);
      GitPaths.RenderSlashed(row);
      GitPaths.SlashedPrefixIff(folder, row);
      GitPaths.SlashOrEqual(s, t);
    }
  }

  /** A path's text neither starts nor ends in a slash. */
  lemma {:induction false} RenderedEnd(p: GitPaths.Path)
    ensures var s := GitPaths.Render(p); p != [] ==> s != [] && s[|s| - 1] != '/' && s[0] != '/'
    decreases |p|
  {
    if p != [] {
      assert p[0] != "" && p[0][|p[0]| - 1] in p[0] && p[0][0] in p[0];
    }
    if |p| > 1 {
      RenderedEnd(p[1..]);
    }
  }

  lemma {:induction false} SlashesTrimmed(s: string, slashes: string)
    requires (s == [] || s[|s| - 1] != '/') && forall k :: 0 <= k < |slashes| ==> slashes[k] == '/'
    ensures TrimEndSlashes(s + slashes) == s
    decreases |slashes|
  {
    if slashes == [] {
      assert s + slashes == s;
    } else {
      var n := |slashes| - 1;
      assert (s + slashes)[|s| + n] == '/' && (s + slashes)[..|s| + n] == s + slashes[..n];
      SlashesTrimmed(s, slashes[..n]);
    }
  }

  /** A containment asks for a substring of a text or for an element of a list that is that text. */
  lemma NeedleMeaning(value: Option<Value>, needle: string)
    ensures HoldsNeedle(value, needle) <==>
            match value
            case Some(Str(text)) => exists before: string, after: string :: text == before + needle + after
            case Some(Arr(items)) => exists i :: 0 <= i < |items| && items[i] == Str(needle)
            case _ => false
  {
    match value
    case Some(Str(text)) =>
      if Contains(text, needle) {
        var i :| 0 <= i <= |text| && OccursAt(text, needle, i);
        assert text == text[..i] + needle + text[i + |needle|..];
      }
      if exists before: string, after: string :: text == before + needle + after {
        var before: string, after: string :| text == before + needle + after;
        assert text[|before|..|before| + |needle|] == needle;
        assert OccursAt(text, needle, |before|);
      }
    case _ =>
  }

  // ---------- hints ----------

  /** Every `file.inFolder(...)` narrows the scan to that folder. */
  lemma FolderCallHint(folder: string, style: Style, lead: string, trail: string)
    requires StyleOk(style) && AllWhitespace(lead) && AllWhitespace(trail)
    ensures LeafScanHint(lead + Call("file.inFolder(", folder, style) + trail) == Folder(folder)
  {
    hide Trim, CallArgument, Argument, StyleOk, AllWhitespace;
    var name, call := "file.inFolder(", Call("file.inFolder(", folder, style);
    CallIsTrimmed(name, folder, style, lead, trail);
    CallParses(name, folder, style);
    var rest := call[|name|..];
    assert rest == Argument(folder, style) + ")" && rest[|rest| - 1..] == ")";
  }

  /** Every equality of the path or the folder with a quoted text narrows to it, unless the text holds `!=`. */
  lemma LocationHint(property: string, s: string, style: Style)
    requires IsLocation(property) && StyleOk(style)
    ensures LeafScanHint(QuotedEquality(property, s, style))
            == if Contains(s, "!=") then NoHint else if property == "file.path" then Path(s) else Folder(s)
  {
    hide Trim, Find, Contains, AllWhitespace, Quoted, Infix, ParseQuoted, Operands, IsFolderCall;
    LocationIsOk(property, style);
    var q, text := Quoted(style.quote, s), QuotedEquality(property, s, style);
    QuotedOperands(property, s, style);
    StartsWithProperty(property, style.lead, "==", style.trail, q);
    NoFolderCall(text, property);
    QuotedParses(style.quote, s);
    InequalityIsQuoted(property, s, style);
    if !Contains(s, "!=") {
      assert "=="[..1] == "=";
      OperatorAt(property, style.lead, "==", style.trail, q);
      PaddedTrims(property, style.lead, style.trail, q);
    }
  }

  lemma LocationIsOk(property: string, style: Style)
    requires IsLocation(property) && StyleOk(style)
    ensures PropertyOk(property, style)
  {
    var one, two := property + style.lead + "=", property + style.lead + "==";
    assert forall i :: 0 <= i < |property| + |style.lead| ==> one[i] != '=' && two[i] != '=' && two[i] != '!';
    forall i | 0 <= i <= |one| ensures !OccursAt(one, "==", i) {
      if OccursAt(one, "==", i) { OccursChars(one, "==", i); }
    }
    forall i | 0 <= i <= |two| ensures !OccursAt(two, "!=", i) {
      if OccursAt(two, "!=", i) { OccursChars(two, "!=", i); }
    }
  }

  lemma StartsWithProperty(left: string, before: string, operator: string, after: string, right: string)
    ensures left <= Infix(left, before, operator, after, right)
  {
  }

  lemma NoFolderCall(text: string, property: string)
    requires IsLocation(property) && property <= text
    ensures !IsFolderCall(text)
  {
    assert text[5] == property[5] && "file.inFolder("[5] == 'i';
  }

  lemma QuotedParses(quote: char, s: string)
    requires IsQuote(quote)
    ensures ParseQuoted(Quoted(quote, s)) == Some(s)
  {
    var q := Quoted(quote, s);
    assert q[1..|q| - 1] == s;
  }
}
