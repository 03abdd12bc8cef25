/**
 * Scenarios from the project's test-suite, restated as facts about the glob
 * matcher and proved from its general lemmas. Each scenario has a lemma about
 * the shape of the names involved and a lemma about the concrete names.
 */
module GlobExamples {
  import opened Paths
  import opened Glob

  lemma FileQuestionShape(name: string)
    requires |name| >= 5 && name[..4] == "file"
    ensures MatchSegment("file?.txt", name) <==> name[5..] == ".txt"
  {
    assert "file?.txt" == "file" + ("?" + ".txt");
    LiteralPrefix("file", "?" + ".txt", name);
    QuestionSegment(".txt", name[4..]);
    assert name[4..][1..] == name[5..];
    LiteralPartMatchesOnlyItself(".txt", name[5..]);
  }

  /** `?` stands for exactly one character (tests/find_test.py, question-mark tests). */
  lemma QuestionMarkIsOneCharacter()
    ensures MatchSegment("file?.txt", "file1.txt")
    ensures !MatchSegment("file?.txt", "file12.txt")
    ensures !MatchSegment("file?.txt", "file123.txt")
  {
    assert "file1.txt"[..4] == "file" && "file1.txt"[5..] == ".txt";
    FileQuestionShape("file1.txt");
    assert "file12.txt"[..4] == "file" && "file12.txt"[5..] == "2.txt";
    FileQuestionShape("file12.txt");
    assert "file123.txt"[..4] == "file" && "file123.txt"[5..] == "23.txt";
    FileQuestionShape("file123.txt");
  }

  lemma TestSetShape(name: string)
    requires |name| >= 5 && name[..4] == "test"
    ensures MatchSegment("test[12].py", name) <==> name[4] in "12" && name[5..] == ".py"
    ensures MatchSegment("test[!1].py", name) <==> name[4] != '1' && name[5..] == ".py"
  {
    assert "test[12].py" == "test" + ("[" + "12" + "]" + ".py");
    LiteralPrefix("test", "[" + "12" + "]" + ".py", name);
    SetSegment("12", ".py", name[4..]);
    assert "test[!1].py" == "test" + ("[!" + "1" + "]" + ".py");
    LiteralPrefix("test", "[!" + "1" + "]" + ".py", name);
    NegatedSetSegment("1", ".py", name[4..]);
    assert name[4..][1..] == name[5..];
    LiteralPartMatchesOnlyItself(".py", name[5..]);
  }

  /** `[12]` admits one listed character, `[!1]` one character not listed. */
  lemma CharacterSets()
    ensures MatchSegment("test[12].py", "test1.py") && MatchSegment("test[12].py", "test2.py")
    ensures !MatchSegment("test[12].py", "test3.py")
    ensures !MatchSegment("test[!1].py", "test1.py")
    ensures MatchSegment("test[!1].py", "test2.py") && MatchSegment("test[!1].py", "test3.py")
  {
    assert "test1.py"[..4] == "test" && "test1.py"[4] == '1' && "test1.py"[5..] == ".py";
    TestSetShape("test1.py");
    assert "test2.py"[..4] == "test" && "test2.py"[4] == '2' && "test2.py"[5..] == ".py";
    TestSetShape("test2.py");
    assert "test3.py"[..4] == "test" && "test3.py"[4] == '3' && "test3.py"[5..] == ".py";
    TestSetShape("test3.py");
  }

  lemma VersionShape(name: string)
    requires |name| >= 3 && name[0] == 'v'
    ensures MatchSegment("v?_*.txt", name) <==> name[2] == '_' && MatchSegment("*.txt", name[3..])
  {
    assert "v?_*.txt" == "v" + ("?" + ("_" + "*.txt"));
    LiteralPrefix("v", "?" + ("_" + "*.txt"), name);
    assert name[..1] == "v";
    QuestionSegment("_" + "*.txt", name[1..]);
    LiteralPrefix("_", "*.txt", name[2..]);
    assert name[1..][1..] == name[2..];
    assert name[2..][1..] == name[3..];
  }

  lemma VersionMatches()
    ensures MatchSegment("v?_*.txt", "v1_data.txt")
  {
    var name := "v1_data.txt";
    VersionShape(name);
    assert name[2] == '_' && name[3..] == "data.txt";
    TxtShape("data.txt");
    assert "data.txt"[4..] == ".txt";
  }

  lemma TwoDigitVersionFails()
    ensures !MatchSegment("v?_*.txt", "v10_data.txt")
  {
    var name := "v10_data.txt";
    VersionShape(name);
    assert name[2] == '0';
  }

  /** `?` and `*` combined: `v?_*.txt` (tests/find_test.py, combination test). */
  lemma QuestionMarkThenStar()
    ensures MatchSegment("v?_*.txt", "v1_data.txt")
    ensures !MatchSegment("v?_*.txt", "v10_data.txt")
  {
    VersionMatches();
    TwoDigitVersionFails();
  }

  lemma TxtShape(name: string)
    ensures MatchSegment("*.txt", name) <==> |name| >= 4 && name[|name| - 4..] == ".txt"
  {
    assert "*.txt" == "*" + ".txt";
    StarSegment(".txt", name);
    forall k | 0 <= k <= |name| ensures MatchSegment(".txt", name[k..]) <==> name[k..] == ".txt" {
      LiteralPartMatchesOnlyItself(".txt", name[k..]);
    }
    if |name| >= 4 && name[|name| - 4..] == ".txt" {
      assert MatchSegment(".txt", name[|name| - 4..]);
    }
  }

  lemma TxtPathShape(rel: Path)
    ensures MatchPath(["*.txt"], rel) <==> |rel| == 1 && MatchPart("*.txt", rel[0])
  {
    var txt: seq<string> := ["*.txt"];
    assert txt[0] != DoubleStar;
    OneSegmentPerPart(txt, rel);
  }

  lemma RecursiveAtTop()
    ensures MatchPath([DoubleStar, "*.txt"], ["root.txt"])
  {
    var txt: seq<string> := ["*.txt"];
    assert [DoubleStar, "*.txt"] == [DoubleStar] + txt;
    var top: Path := ["root.txt"];
    TxtShape("root.txt");
    assert "root.txt"[4..] == ".txt";
    TxtPathShape(top);
    DoubleStarLevels(txt, top);
    assert top[0..] == top && top[..0] == [];
  }

  lemma RecursiveDeep()
    ensures MatchPath([DoubleStar, "*.txt"], ["level1", "level2", "level3", "file3.txt"])
  {
    var txt: seq<string> := ["*.txt"];
    assert [DoubleStar, "*.txt"] == [DoubleStar] + txt;
    var deep: Path := ["level1", "level2", "level3", "file3.txt"];
    TxtShape("file3.txt");
    assert "file3.txt"[5..] == ".txt";
    assert deep[3..] == ["file3.txt"];
    TxtPathShape(deep[3..]);
    assert deep[..3] == ["level1", "level2", "level3"];
    assert Root !in deep[..3];
    DoubleStarLevels(txt, deep);
  }

  lemma RecursiveSkipsDirectory()
    ensures !MatchPath([DoubleStar, "*.txt"], ["level1"])
  {
    var txt: seq<string> := ["*.txt"];
    assert [DoubleStar, "*.txt"] == [DoubleStar] + txt;
    var dir: Path := ["level1"];
    TxtShape("level1");
    assert "level1"[2..] != ".txt" by { assert "level1"[2..][0] == 'v'; }
    TxtPathShape(dir);
    TxtPathShape(dir[1..]);
    DoubleStarLevels(txt, dir);
    assert dir[0..] == dir;
  }

  /** `**` descends any number of levels, including none. */
  lemma RecursiveWildcard()
    ensures MatchPath(["**", "*.txt"], ["root.txt"])
    ensures MatchPath(["**", "*.txt"], ["level1", "level2", "level3", "file3.txt"])
    ensures !MatchPath(["**", "*.txt"], ["level1"])
  {
    RecursiveAtTop();
    RecursiveDeep();
    RecursiveSkipsDirectory();
  }

  /** A plain `*` part stays within one level. */
  lemma WildcardAtEachLevel()
    ensures MatchPath(["*", "*", "*.txt"], ["dir1", "sub1", "file1.txt"])
    ensures !MatchPath(["*", "*", "*.txt"], ["dir1", "sub1"])
  {
    var levels: seq<string> := ["*", "*", "*.txt"];
    OneSegmentPerPart(levels, ["dir1", "sub1", "file1.txt"]);
    StarMatchesEverything("dir1");
    StarMatchesEverything("sub1");
    TxtShape("file1.txt");
    assert "file1.txt"[5..] == ".txt";
    OneSegmentPerPart(levels, ["dir1", "sub1"]);
  }
}
