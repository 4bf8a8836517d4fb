/** `DescriptorPool::Tables` as an object, with the erasing loops of a rollback. */
module PoolTablesObject {
  import opened PoolTables

  /** Not yet erased: what the loop over a pending list still has to remove. */
  lemma EraseStep<K, V>(m: map<K, V>, ks: seq<K>, i: nat)
    requires i < |ks|
    ensures EraseAll(EraseAll(m, ks[..i]) - {ks[i]}, []) == EraseAll(m, ks[..i + 1])
    ensures EraseAll(m, ks[..i]) - {ks[i]} == EraseAll(m, ks[..i + 1])
  {
    assert ks[..i + 1] == ks[..i] + [ks[i]];
  }

  lemma WithinSizes(s: Tables)
    requires CanRollBack(s)
    ensures AtMost(s.checkpoints[|s.checkpoints| - 1], Sizes(s))
    ensures var c := s.checkpoints[|s.checkpoints| - 1];
            c.pendingSymbols <= |s.symbolsAfter| && c.pendingFiles <= |s.filesAfter| &&
            c.pendingExtensions <= |s.extensionsAfter| && c.strings <= |s.strings| && c.messages <= |s.messages| &&
            c.fileTables <= |s.fileTables| && c.allocations <= |s.allocations|
  {
  }

  lemma OwnedLives(s: Tables, name: Ref)
    requires Valid(s) && name in s.strings
    ensures name in s.heap
  {
    hide KeysLive, SettledFor, Nested;
  }

  class DescriptorTables {
    var heap: map<Ref, string>
    var strings: seq<Ref>
    var messages: seq<Ref>
    var fileTables: seq<Ref>
    var allocations: seq<Ref>
    var symbolsByName: map<string, Entry>
    var filesByName: map<string, Entry>
    var extensions: map<ExtensionKey, Ref>
    var checkpoints: seq<CheckPoint>
    var symbolsAfter: seq<Ref>
    var filesAfter: seq<Ref>
    var extensionsAfter: seq<ExtensionKey>

    function View(): Tables
      reads this
    {
      Tables(heap, strings, messages, fileTables, allocations, symbolsByName, filesByName, extensions, checkpoints,
             symbolsAfter, filesAfter, extensionsAfter)
    }

    constructor ()
      ensures View() == EMPTY && Valid(View())
    {
      heap, strings, messages, fileTables, allocations := map[], [], [], [], [];
      symbolsByName, filesByName, extensions, checkpoints := map[], map[], map[], [];
      symbolsAfter, filesAfter, extensionsAfter := [], [], [];
    }

    method AddCheckpointNow()
      modifies this`checkpoints
      ensures View() == Apply(old(View()), AddCheckpoint)
      ensures checkpoints == old(checkpoints) + [CheckPoint(|strings|, |messages|, |fileTables|, |allocations|,
                                                            |symbolsAfter|, |filesAfter|, |extensionsAfter|)]
    {
      checkpoints := checkpoints + [CheckPoint(|strings|, |messages|, |fileTables|, |allocations|,
                                               |symbolsAfter|, |filesAfter|, |extensionsAfter|)];
    }

    method ClearLast()
      requires checkpoints != []
      modifies this`checkpoints, this`symbolsAfter, this`filesAfter, this`extensionsAfter
      ensures View() == Apply(old(View()), ClearLastCheckpoint)
      ensures checkpoints == old(checkpoints)[..|old(checkpoints)| - 1]
      ensures checkpoints == [] ==> symbolsAfter == [] && filesAfter == [] && extensionsAfter == []
      ensures checkpoints != [] ==> unchanged(`symbolsAfter) && unchanged(`filesAfter) && unchanged(`extensionsAfter)
    {
      checkpoints := checkpoints[..|checkpoints| - 1];
      if checkpoints == [] {
        symbolsAfter := [];
        filesAfter := [];
        extensionsAfter := [];
      }
    }

    method Rollback()
      requires Valid(View()) && checkpoints != []
      modifies this
      ensures CanRollBack(old(View())) && View() == RolledBack(old(View()))
      ensures Valid(View())
    {
      hide Valid, EraseAll, Keys, AtMost, Living, CanRollBack;
      ValidCanRollBack(View());
      RollbackKeepsValid(View());
      var c := checkpoints[|checkpoints| - 1];
      WithinSizes(View());
      EraseSymbols(c.pendingSymbols);
      EraseFiles(c.pendingFiles);
      EraseExtensions(c.pendingExtensions);
      Truncate(c);
    }

    /** Deletes everything allocated since, and forgets the names erased. */
    method Truncate(c: CheckPoint)
      requires checkpoints != [] && AtMost(c, Sizes(View()))
      modifies this`heap, this`strings, this`messages, this`fileTables, this`allocations, this`checkpoints,
               this`symbolsAfter, this`filesAfter, this`extensionsAfter
      ensures heap == Living(old(heap), old(strings)[..c.strings])
      ensures strings == old(strings)[..c.strings] && messages == old(messages)[..c.messages]
      ensures fileTables == old(fileTables)[..c.fileTables] && allocations == old(allocations)[..c.allocations]
      ensures symbolsAfter == old(symbolsAfter)[..c.pendingSymbols] && filesAfter == old(filesAfter)[..c.pendingFiles]
      ensures extensionsAfter == old(extensionsAfter)[..c.pendingExtensions]
      ensures checkpoints == old(checkpoints)[..|old(checkpoints)| - 1]
    {
      symbolsAfter := symbolsAfter[..c.pendingSymbols];
      filesAfter := filesAfter[..c.pendingFiles];
      extensionsAfter := extensionsAfter[..c.pendingExtensions];
      heap := Living(heap, strings[..c.strings]);
      strings := strings[..c.strings];
      messages := messages[..c.messages];
      fileTables := fileTables[..c.fileTables];
      allocations := allocations[..c.allocations];
      checkpoints := checkpoints[..|checkpoints| - 1];
    }

    method EraseSymbols(from: nat)
      requires from <= |symbolsAfter|
      modifies this`symbolsByName
      ensures symbolsByName == EraseAll(old(symbolsByName), Keys(heap, symbolsAfter[from..]))
    {
      ghost var ks := Keys(heap, symbolsAfter[from..]);
      for i := from to |symbolsAfter|
        invariant symbolsByName == EraseAll(old(symbolsByName), ks[..i - from])
      {
        EraseStep(old(symbolsByName), ks, i - from);
        symbolsByName := symbolsByName - {Key(heap, symbolsAfter[i])};
      }
      assert ks[..|ks|] == ks;
    }

    method EraseFiles(from: nat)
      requires from <= |filesAfter|
      modifies this`filesByName
      ensures filesByName == EraseAll(old(filesByName), Keys(heap, filesAfter[from..]))
    {
      ghost var ks := Keys(heap, filesAfter[from..]);
      for i := from to |filesAfter|
        invariant filesByName == EraseAll(old(filesByName), ks[..i - from])
      {
        EraseStep(old(filesByName), ks, i - from);
        filesByName := filesByName - {Key(heap, filesAfter[i])};
      }
      assert ks[..|ks|] == ks;
    }

    method EraseExtensions(from: nat)
      requires from <= |extensionsAfter|
      modifies this`extensions
      ensures extensions == EraseAll(old(extensions), extensionsAfter[from..])
    {
      ghost var ks := extensionsAfter[from..];
      for i := from to |extensionsAfter|
        invariant extensions == EraseAll(old(extensions), ks[..i - from])
      {
        EraseStep(old(extensions), ks, i - from);
        extensions := extensions - {extensionsAfter[i]};
      }
      assert ks[..|ks|] == ks;
    }

    /** `AddSymbol`: false when the name is taken. */
    method AddSymbolNamed(name: Ref, symbol: Ref) returns (added: bool)
      requires Valid(View()) && name in strings
      modifies this`symbolsByName, this`symbolsAfter
      ensures View() == Apply(old(View()), AddSymbol(name, symbol)) && Valid(View())
      ensures name in heap && (added <==> heap[name] !in old(symbolsByName))
      ensures added ==> symbolsByName == old(symbolsByName)[heap[name] := Entry(name, symbol)]
                        && symbolsAfter == old(symbolsAfter) + [name]
      ensures !added ==> unchanged(this)
    {
      ValidKept(View(), AddSymbol(name, symbol));
      OwnedLives(View(), name);
      hide Valid;
      added := Key(heap, name) !in symbolsByName;
      if added {
        symbolsByName := symbolsByName[Key(heap, name) := Entry(name, symbol)];
        symbolsAfter := symbolsAfter + [name];
      }
    }

    /** `AddFile` */
    method AddFileNamed(name: Ref, file: Ref) returns (added: bool)
      requires Valid(View()) && name in strings
      modifies this`filesByName, this`filesAfter
      ensures View() == Apply(old(View()), AddFile(name, file)) && Valid(View())
      ensures name in heap && (added <==> heap[name] !in old(filesByName))
      ensures added ==> filesByName == old(filesByName)[heap[name] := Entry(name, file)]
                        && filesAfter == old(filesAfter) + [name]
      ensures !added ==> unchanged(this)
    {
      ValidKept(View(), AddFile(name, file));
      OwnedLives(View(), name);
      hide Valid;
      added := Key(heap, name) !in filesByName;
      if added {
        filesByName := filesByName[Key(heap, name) := Entry(name, file)];
        filesAfter := filesAfter + [name];
      }
    }

    /** `AllocateString`, at an address not in use. */
    method AllocateStringNow(value: string) returns (at: Ref)
      requires Valid(View())
      modifies this`heap, this`strings
      ensures at !in old(strings) && View() == Apply(old(View()), AllocateString(at, value)) && Valid(View())
      ensures heap == old(heap)[at := value] && strings == old(strings) + [at]
    {
      at := 0;
      for i := 0 to |strings|
        invariant forall j :: 0 <= j < i ==> strings[j] < at
      {
        if strings[i] >= at {
          at := strings[i] + 1;
        }
      }
      ValidKept(View(), AllocateString(at, value));
      hide Valid;
      heap := heap[at := value];
      strings := strings + [at];
    }

    /** `AddExtension`: false when the number of the containing type is taken. */
    method AddExtensionOf(key: ExtensionKey, field: Ref) returns (added: bool)
      requires Valid(View())
      modifies this`extensions, this`extensionsAfter
      ensures View() == Apply(old(View()), AddExtension(key, field)) && Valid(View())
      ensures added <==> key !in old(extensions)
      ensures added ==> extensions == old(extensions)[key := field] && extensionsAfter == old(extensionsAfter) + [key]
      ensures !added ==> unchanged(this)
    {
      hide Valid;
      ValidKept(View(), AddExtension(key, field));
      added := key !in extensions;
      if added {
        extensions := extensions[key := field];
        extensionsAfter := extensionsAfter + [key];
      }
    }

    /** `AllocateMessage` */
    method AllocateMessageNow(at: Ref)
      requires Valid(View())
      modifies this`messages
      ensures View() == Apply(old(View()), AllocateMessage(at)) && Valid(View())
      ensures messages == old(messages) + [at]
    {
      hide Valid;
      ValidKept(View(), AllocateMessage(at));
      messages := messages + [at];
    }

    /** `AllocateFileTables` */
    method AllocateFileTablesNow(at: Ref)
      requires Valid(View())
      modifies this`fileTables
      ensures View() == Apply(old(View()), AllocateFileTables(at)) && Valid(View())
      ensures fileTables == old(fileTables) + [at]
    {
      hide Valid;
      ValidKept(View(), AllocateFileTables(at));
      fileTables := fileTables + [at];
    }

    /** `AllocateBytes`; nothing is allocated for no bytes. */
    method AllocateBytesNow(at: Ref, size: nat)
      requires Valid(View())
      modifies this`allocations
      ensures View() == Apply(old(View()), AllocateBytes(at, size)) && Valid(View())
      ensures allocations == if size > 0 then old(allocations) + [at] else old(allocations)
    {
      hide Valid;
      ValidKept(View(), AllocateBytes(at, size));
      if size == 0 {
        return;
      }
      allocations := allocations + [at];
    }
  }
}
