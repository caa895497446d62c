/**
 * GetIconPathForNode: the icon shown beside a node in the tree view, chosen
 * from the node's Name alone. A name with no '.' is taken for a folder; a
 * name whose extension lower-cases to ".txt" gets the text-file icon; any
 * other name with a '.' gets the generic file icon.
 */
module Icons {
  import opened Strings

  const FOLDER_ICON := "Resources/folderIcon.png"
  const TEXT_FILE_ICON := "Resources/textFileIcon.png"
  const FILE_ICON := "Resources/fileIcon.png"

  /** node.Name.Contains('.'): the rule that tells files from folders. */
  function IsFile(name: string): (file: bool)
    ensures file <==> exists k :: 0 <= k < |name| && name[k] == '.'
  {
    '.' in name
  }

  /** GetIconPathForNode(node), from the node's Name. */
  function GetIconPathForNode(name: string): (icon: string)
    ensures icon in {FOLDER_ICON, TEXT_FILE_ICON, FILE_ICON}
  {
    if !IsFile(name) then FOLDER_ICON
    else
      var extension := Lower(GetExtension(name));
      if extension == ".txt" then TEXT_FILE_ICON else FILE_ICON
  }

  /** The three branches of GetIconPathForNode as a case table: the folder
      icon exactly for names without a '.', the text-file icon exactly for
      names with a '.' whose extension lower-cases to ".txt", the generic
      icon for the other names with a '.'. This restates the branches; what
      they mean for concrete names is shown by TxtSuffixGetsTextIcon and
      TrailingDotGetsFileIcon below. */
  lemma IconChoice(name: string)
    ensures GetIconPathForNode(name) == FOLDER_ICON <==> '.' !in name
    ensures GetIconPathForNode(name) == TEXT_FILE_ICON <==> '.' in name && Lower(GetExtension(name)) == ".txt"
    ensures GetIconPathForNode(name) == FILE_ICON <==> '.' in name && Lower(GetExtension(name)) != ".txt"
  {
  }

  /** Lower-casing leaves the dot and the separators alone. */
  lemma PunctuationKeepsCase(c: char)
    ensures c in {'.'} + DIRECTORY_SEPARATORS ==> LowerChar(c) == c
  {
  }

  /** Letters that lower-case to "txt" hold no dot and no separator. */
  lemma TxtLettersAreFree(x: string)
    requires Lower(x) == "txt"
    ensures Free(x, {'.'} + DIRECTORY_SEPARATORS)
  {
    forall k | 0 <= k < |x|
      ensures x[k] !in {'.'} + DIRECTORY_SEPARATORS
    {
      PunctuationKeepsCase(x[k]);
      assert LowerChar(x[k]) in "txt";
    }
  }

  lemma LowerDotTxt(x: string)
    requires Lower(x) == "txt"
    ensures Lower("." + x) == ".txt"
  {
    assert ("." + x)[1..] == x;
    assert Lower("." + x) == [LowerChar('.')] + Lower(x);
  }

  /** The name `stem + "." + x` holds a '.' and ends in "." + x. */
  lemma DotSuffix(stem: string, x: string)
    ensures IsFile(stem + "." + x)
    ensures (stem + "." + x)[|stem|..] == "." + x
  {
    assert (stem + "." + x)[|stem|] == '.';
  }

  /** A name ending in ".txt" in any mix of cases, such as "notes.TXT",
      gets the text-file icon. */
  lemma TxtSuffixGetsTextIcon(stem: string, x: string)
    requires |x| == 3 && Lower(x) == "txt"
    ensures GetIconPathForNode(stem + "." + x) == TEXT_FILE_ICON
  {
    DotSuffix(stem, x);
    TxtLettersAreFree(x);
    ExtensionOfSuffix(stem + "." + x, x);
    LowerDotTxt(x);
  }

  /** The converse: only a name ending in "." plus some case of "txt" gets
      the text-file icon. */
  lemma TextIconOnlyForTxtSuffix(name: string)
    ensures GetIconPathForNode(name) == TEXT_FILE_ICON ==>
              |name| >= 4 && name[|name| - 4] == '.' && Lower(name[|name| - 3..]) == "txt"
  {
    if GetIconPathForNode(name) == TEXT_FILE_ICON {
      IconChoice(name);
      var ext := GetExtension(name);
      assert |ext| == |Lower(ext)| == 4;
      var x := name[|name| - 3..];
      assert x == ext[1..];
      assert Lower(x) == Lower(ext)[1..];
    }
  }

  /** A name whose only '.' is its last character has no extension, so it
      gets the generic file icon. */
  lemma TrailingDotGetsFileIcon(stem: string)
    requires '.' !in stem
    ensures GetIconPathForNode(stem + ".") == FILE_ICON
  {
    var name := stem + ".";
    assert name[|stem|] == '.';
  }
}
