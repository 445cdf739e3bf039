/**
 * FileParser: a data file is a list of lines; blank lines separate blocks,
 * every other line is trimmed and kept. Reading the file from disk is not
 * modelled: each file arrives as its sequence of lines.
 */
module FileParser {
  import opened Chars
  import opened StringNormalizer
  import opened Models
  import opened Phrases

  /** The parse after a prefix of the lines: the finished blocks and the
      block still being filled. */
  datatype ParseState = ParseState(blocks: seq<seq<string>>, current: seq<string>)

  /** One line of the loop in ParseFileBlocks. */
  function Step(st: ParseState, line: string): ParseState
  {
    if IsBlank(line) then
      if |st.current| > 0 then ParseState(st.blocks + [st.current], []) else st
    else
      ParseState(st.blocks, st.current + [Trim(line)])
  }

  /** The state after reading all of lines. */
  function Scan(lines: seq<string>): ParseState
  {
    if |lines| == 0 then ParseState([], [])
    else Step(Scan(lines[..|lines| - 1]), lines[|lines| - 1])
  }

  /** The blocks of a file: the finished ones, then the last one if it is
      not empty. */
  function Blocks(lines: seq<string>): seq<seq<string>>
  {
    var st := Scan(lines);
    if |st.current| > 0 then st.blocks + [st.current] else st.blocks
  }

  /** FileParser.ParseFileBlocks, over the lines File.ReadAllLines returns. */
  method ParseFileBlocks(lines: seq<string>) returns (blocks: seq<seq<string>>)
    ensures blocks == Blocks(lines)
  {
    blocks := [];
    var currentBlock: seq<string> := [];
    for i := 0 to |lines|
      invariant ParseState(blocks, currentBlock) == Scan(lines[..i])
    {
      assert lines[..i + 1][..i] == lines[..i];
      var line := lines[i];
      if IsBlank(line) {
        if |currentBlock| > 0 {
          blocks := blocks + [currentBlock];
          currentBlock := [];
        }
      } else {
        currentBlock := currentBlock + [Trim(line)];
      }
    }
    assert lines[..|lines|] == lines;
    if |currentBlock| > 0 {
      blocks := blocks + [currentBlock];
    }
  }

  /* ---- Reference definitions ---- */

  /** The input lines that are not blank, trimmed, in order. */
  function TrimmedNonBlank(lines: seq<string>): seq<string>
  {
    if |lines| == 0 then []
    else
      var rest := TrimmedNonBlank(lines[..|lines| - 1]);
      var line := lines[|lines| - 1];
      if IsBlank(line) then rest else rest + [Trim(line)]
  }

  /** The blocks laid end to end. */
  function Flatten(blocks: seq<seq<string>>): seq<string>
  {
    if |blocks| == 0 then [] else Flatten(blocks[..|blocks| - 1]) + blocks[|blocks| - 1]
  }

  /** Line i is non-blank and starts a run: it is first, or follows a blank line. */
  predicate StartsRun(lines: seq<string>, i: int)
    requires 0 <= i < |lines|
  {
    !IsBlank(lines[i]) && (i == 0 || IsBlank(lines[i - 1]))
  }

  /** The number of maximal runs of non-blank lines. */
  function RunCount(lines: seq<string>): nat
  {
    if |lines| == 0 then 0
    else RunCount(lines[..|lines| - 1]) + (if StartsRun(lines, |lines| - 1) then 1 else 0)
  }

  /** A trimmed, non-blank line: it has a first and a last character, and
      neither is white space. */
  predicate IsTrimmedLine(s: string)
  {
    |s| > 0 && !IsWhiteSpace(s[0]) && !IsWhiteSpace(s[|s| - 1])
  }

  /* ---- Properties ---- */

  lemma FlattenSnoc(blocks: seq<seq<string>>, b: seq<string>)
    ensures Flatten(blocks + [b]) == Flatten(blocks) + b
  {
    assert (blocks + [b])[..|blocks|] == blocks;
  }

  /** Finished blocks are non-empty, and every line kept is trimmed. */
  lemma {:induction false} ScanWellFormed(lines: seq<string>)
    ensures forall b :: b in Scan(lines).blocks ==> |b| > 0
    ensures forall b, x :: b in Scan(lines).blocks && x in b ==> IsTrimmedLine(x)
    ensures forall x :: x in Scan(lines).current ==> IsTrimmedLine(x)
  {
    if |lines| > 0 {
      var line := lines[|lines| - 1];
      ScanWellFormed(lines[..|lines| - 1]);
      if !IsBlank(line) {
        TrimShape(line);
      }
    }
  }

  /** The finished blocks and the open one, laid end to end, are the trimmed
      non-blank lines read so far. */
  lemma {:induction false} ScanFlatten(lines: seq<string>)
    ensures Flatten(Scan(lines).blocks) + Scan(lines).current == TrimmedNonBlank(lines)
  {
    if |lines| > 0 {
      var front := lines[..|lines| - 1];
      var line := lines[|lines| - 1];
      ScanFlatten(front);
      var st := Scan(front);
      if IsBlank(line) {
        if |st.current| > 0 {
          FlattenSnoc(st.blocks, st.current);
        }
      } else {
        assert Flatten(st.blocks) + (st.current + [Trim(line)])
            == (Flatten(st.blocks) + st.current) + [Trim(line)];
      }
    }
  }

  /** A block is open exactly after a non-blank line, and the finished blocks
      plus the open one number the runs read so far. */
  lemma {:induction false} ScanCount(lines: seq<string>)
    ensures |Scan(lines).current| > 0 <==> |lines| > 0 && !IsBlank(lines[|lines| - 1])
    ensures |Scan(lines).blocks| + (if |Scan(lines).current| > 0 then 1 else 0) == RunCount(lines)
  {
    if |lines| > 0 {
      var front := lines[..|lines| - 1];
      ScanCount(front);
      if |front| > 0 {
        assert lines[|lines| - 2] == front[|front| - 1];
      }
    }
  }

  /** No block is empty, and every line of every block is trimmed and non-blank. */
  lemma BlocksWellFormed(lines: seq<string>)
    ensures forall b :: b in Blocks(lines) ==> |b| > 0
    ensures forall b, x :: b in Blocks(lines) && x in b ==> IsTrimmedLine(x)
  {
    ScanWellFormed(lines);
  }

  /** The blocks, laid end to end, are the trimmed non-blank lines in order. */
  lemma BlocksFlatten(lines: seq<string>)
    ensures Flatten(Blocks(lines)) == TrimmedNonBlank(lines)
  {
    ScanFlatten(lines);
    var st := Scan(lines);
    if |st.current| > 0 {
      FlattenSnoc(st.blocks, st.current);
    }
  }

  /** There is one block per maximal run of non-blank lines. */
  lemma BlocksCount(lines: seq<string>)
    ensures |Blocks(lines)| == RunCount(lines)
  {
    ScanCount(lines);
  }

  /* ---- LoadAllBlocks ---- */

  /** One file's blocks, numbered from 1 and tagged with its name. */
  function NumberBlocks(fileName: string, blocks: seq<seq<string>>): (r: seq<FileBlock>)
    ensures |r| == |blocks|
  {
    seq(|blocks|, i requires 0 <= i < |blocks| => FileBlock(fileName, i + 1, blocks[i]))
  }

  /** Every file's numbered blocks, file after file. */
  function AllBlocks(fileNames: seq<string>, fileLines: seq<seq<string>>): seq<FileBlock>
    requires |fileNames| == |fileLines|
  {
    if |fileNames| == 0 then []
    else
      var n := |fileNames| - 1;
      AllBlocks(fileNames[..n], fileLines[..n]) + NumberBlocks(fileNames[n], Blocks(fileLines[n]))
  }

  /** FileParser.LoadAllBlocks; fileLines[f] stands for the lines of the
      file named fileNames[f]. */
  method LoadAllBlocks(fileNames: seq<string>, fileLines: seq<seq<string>>)
    returns (allBlocks: seq<FileBlock>)
    requires |fileNames| == |fileLines|
    ensures allBlocks == AllBlocks(fileNames, fileLines)
  {
    allBlocks := [];
    for f := 0 to |fileNames|
      invariant allBlocks == AllBlocks(fileNames[..f], fileLines[..f])
    {
      assert fileNames[..f + 1][..f] == fileNames[..f];
      assert fileLines[..f + 1][..f] == fileLines[..f];
      var blocks := ParseFileBlocks(fileLines[f]);
      allBlocks := AppendNumbered(allBlocks, fileNames[f], blocks);
      assert AllBlocks(fileNames[..f + 1], fileLines[..f + 1])
          == AllBlocks(fileNames[..f], fileLines[..f]) + NumberBlocks(fileNames[f], Blocks(fileLines[f]));
    }
    assert fileNames[..|fileNames|] == fileNames;
    assert fileLines[..|fileLines|] == fileLines;
  }

  /** The inner loop of LoadAllBlocks: one file's blocks appended with their numbers. */
  method AppendNumbered(allBlocks: seq<FileBlock>, fileName: string, blocks: seq<seq<string>>)
    returns (r: seq<FileBlock>)
    ensures r == allBlocks + NumberBlocks(fileName, blocks)
  {
    r := allBlocks;
    for i := 0 to |blocks|
      invariant r == allBlocks + NumberBlocks(fileName, blocks[..i])
    {
      assert NumberBlocks(fileName, blocks[..i + 1])
          == NumberBlocks(fileName, blocks[..i]) + [FileBlock(fileName, i + 1, blocks[i])];
      r := r + [FileBlock(fileName, i + 1, blocks[i])];
    }
    assert blocks[..|blocks|] == blocks;
  }

  /** The blocks of one file, in the order they appear. */
  function FromFile(all: seq<FileBlock>, fileName: string): seq<FileBlock>
  {
    if |all| == 0 then []
    else
      var rest := FromFile(all[..|all| - 1], fileName);
      if all[|all| - 1].fileName == fileName then rest + [all[|all| - 1]] else rest
  }

  lemma {:induction false} FromFileAppend(a: seq<FileBlock>, b: seq<FileBlock>, fileName: string)
    ensures FromFile(a + b, fileName) == FromFile(a, fileName) + FromFile(b, fileName)
  {
    if |b| == 0 {
      assert a + b == a;
    } else {
      var n := |b| - 1;
      assert (a + b)[..|a + b| - 1] == a + b[..n];
      FromFileAppend(a, b[..n], fileName);
    }
  }

  lemma {:induction false} FromFileNumbered(name: string, blocks: seq<seq<string>>, fileName: string)
    ensures FromFile(NumberBlocks(name, blocks), fileName)
         == if name == fileName then NumberBlocks(name, blocks) else []
  {
    if |blocks| > 0 {
      var n := |blocks| - 1;
      assert NumberBlocks(name, blocks)[..n] == NumberBlocks(name, blocks[..n]);
      FromFileNumbered(name, blocks[..n], fileName);
    }
  }

  /** Every loaded block carries the name of one of the files. */
  lemma {:induction false} AllBlocksNamed(fileNames: seq<string>, fileLines: seq<seq<string>>)
    requires |fileNames| == |fileLines|
    ensures forall b :: b in AllBlocks(fileNames, fileLines) ==> b.fileName in fileNames
  {
    if |fileNames| > 0 {
      var n := |fileNames| - 1;
      AllBlocksNamed(fileNames[..n], fileLines[..n]);
    }
  }

  lemma FromFileAbsent(all: seq<FileBlock>, fileName: string)
    requires forall b :: b in all ==> b.fileName != fileName
    ensures FromFile(all, fileName) == []
  {
    if |all| > 0 {
      FromFileAbsent(all[..|all| - 1], fileName);
    }
  }

  /** When the file names are distinct, the blocks tagged with a file's name
      are exactly that file's blocks, numbered 1 to n in file order. */
  lemma {:induction false} LoadAllBlocksPerFile(fileNames: seq<string>, fileLines: seq<seq<string>>, f: int)
    requires |fileNames| == |fileLines| && NoDuplicates(fileNames)
    requires 0 <= f < |fileNames|
    ensures FromFile(AllBlocks(fileNames, fileLines), fileNames[f])
         == NumberBlocks(fileNames[f], Blocks(fileLines[f]))
  {
    var n := |fileNames| - 1;
    var front, frontLines := fileNames[..n], fileLines[..n];
    var last := NumberBlocks(fileNames[n], Blocks(fileLines[n]));
    FromFileAppend(AllBlocks(front, frontLines), last, fileNames[f]);
    FromFileNumbered(fileNames[n], Blocks(fileLines[n]), fileNames[f]);
    if f == n {
      AllBlocksNamed(front, frontLines);
      FromFileAbsent(AllBlocks(front, frontLines), fileNames[f]);
    } else {
      assert fileNames[f] == front[f];
      LoadAllBlocksPerFile(front, frontLines, f);
    }
  }

  /** File x comes before file y in the list. */
  ghost predicate FileBefore(fileNames: seq<string>, x: string, y: string)
  {
    exists f, g :: 0 <= f < g < |fileNames| && fileNames[f] == x && fileNames[g] == y
  }

  /** Of two blocks from different files, the earlier one comes from the
      earlier file. */
  ghost predicate FileOrdered(fileNames: seq<string>, all: seq<FileBlock>)
  {
    forall i, j :: 0 <= i < j < |all| && all[i].fileName != all[j].fileName ==>
      FileBefore(fileNames, all[i].fileName, all[j].fileName)
  }

  lemma FileBeforeExtend(fileNames: seq<string>, n: nat, x: string, y: string)
    requires n <= |fileNames| && FileBefore(fileNames[..n], x, y)
    ensures FileBefore(fileNames, x, y)
  {
    var f, g :| 0 <= f < g < n && fileNames[..n][f] == x && fileNames[..n][g] == y;
    assert fileNames[f] == x && fileNames[g] == y;
  }

  lemma FileBeforeLast(fileNames: seq<string>, x: string)
    requires |fileNames| > 0 && x in fileNames[..|fileNames| - 1]
    ensures FileBefore(fileNames, x, fileNames[|fileNames| - 1])
  {
    var n := |fileNames| - 1;
    var f :| 0 <= f < n && fileNames[..n][f] == x;
    assert fileNames[f] == x;
  }

  /** Appending the blocks of a new last file keeps the file order. */
  lemma FileOrderedAppend(fileNames: seq<string>, prev: seq<FileBlock>, last: seq<FileBlock>)
    requires |fileNames| > 0
    requires FileOrdered(fileNames[..|fileNames| - 1], prev)
    requires forall b :: b in prev ==> b.fileName in fileNames[..|fileNames| - 1]
    requires forall b :: b in last ==> b.fileName == fileNames[|fileNames| - 1]
    ensures FileOrdered(fileNames, prev + last)
  {
    var n, all := |fileNames| - 1, prev + last;
    forall i, j | 0 <= i < j < |all| && all[i].fileName != all[j].fileName
      ensures FileBefore(fileNames, all[i].fileName, all[j].fileName)
    {
      if j < |prev| {
        assert all[i] == prev[i] && all[j] == prev[j];
        FileBeforeExtend(fileNames, n, prev[i].fileName, prev[j].fileName);
      } else if i < |prev| {
        assert all[i] == prev[i] && prev[i] in prev;
        assert all[j] == last[j - |prev|] && last[j - |prev|] in last;
        FileBeforeLast(fileNames, prev[i].fileName);
      } else {
        assert false;
      }
    }
  }

  /** Blocks of different files keep the order of the files. */
  lemma {:induction false} LoadAllBlocksFileOrder(fileNames: seq<string>, fileLines: seq<seq<string>>)
    requires |fileNames| == |fileLines| && NoDuplicates(fileNames)
    ensures FileOrdered(fileNames, AllBlocks(fileNames, fileLines))
  {
    if |fileNames| > 0 {
      var n := |fileNames| - 1;
      var front, frontLines := fileNames[..n], fileLines[..n];
      LoadAllBlocksFileOrder(front, frontLines);
      AllBlocksNamed(front, frontLines);
      FileOrderedAppend(fileNames, AllBlocks(front, frontLines), NumberBlocks(fileNames[n], Blocks(fileLines[n])));
    }
  }
}
