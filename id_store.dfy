/** The identifier store: a text file holding one procurement identifier per
    line, read back into a set at the start of a run and appended to at the
    end. The file is modelled by its contents, `None` when it does not exist. */
module IdStore {
  import opened Wrappers
  import opened Text

  /** The text of the id file; a missing file reads as empty text. */
  function Contents(file: Option<string>): string
  {
    if file.Some? then file.value else ""
  }

  /** Appending to the file starts a new line: it is missing, empty or ends with
      a line break. Every text the store itself writes has this shape. */
  predicate AppendSafe(file: Option<string>)
  {
    Terminated(Contents(file))
  }

  predicate NoBreaks(ids: set<string>)
  {
    forall id | id in ids :: NoBreak(id)
  }

  /** The set of identifiers in a sequence of lines. */
  function Elements(ls: seq<string>): set<string>
  {
    set l | l in ls
  }

  /** `load_existing_ids`: the set of lines of the file, or the empty set when
      there is no file. */
  function LoadIds(file: Option<string>): set<string>
  {
    if file.Some? then Elements(Lines(file.value)) else {}
  }

  /** The loaded identifiers are exactly the lines of the file's text; a
      missing file gives none. */
  lemma LoadIdsAreLines(file: Option<string>, x: string)
    ensures file.None? ==> LoadIds(file) == {}
    ensures x in LoadIds(file) <==> exists i :: LineAt(Contents(file), x, i)
  {
    LinesAreLineAt(Contents(file), x);
  }

  /** Loading what is already there plus the lines `order` appended to it gives
      the old identifiers together with those lines, as long as the old text
      ended a line and no appended identifier holds a line break. */
  lemma LoadAfterAppend(file: Option<string>, order: seq<string>)
    requires AppendSafe(file)
    requires forall k :: 0 <= k < |order| ==> NoBreak(order[k])
    ensures LoadIds(Some(Contents(file) + Unlines(order))) == LoadIds(file) + Elements(order)
  {
    LinesAppend(Contents(file), Unlines(order));
    LinesOfUnlines(order);
    assert Contents(Some(Contents(file) + Unlines(order))) == Contents(file) + Unlines(order);
  }

  /** `order` lists, each once, the identifiers of `newIds` already written;
      `rest` holds the others. */
  ghost predicate SplitBy(newIds: set<string>, order: seq<string>, rest: set<string>)
  {
    rest <= newIds && rest !! Elements(order) && Elements(order) + rest == newIds
    && |order| + |rest| == |newIds|
  }

  /** Writing one more identifier of `rest` keeps the split. */
  lemma SplitStep(newIds: set<string>, order: seq<string>, rest: set<string>, id: string)
    requires SplitBy(newIds, order, rest) && id in rest
    ensures SplitBy(newIds, order + [id], rest - {id})
  {
    assert Elements(order + [id]) == Elements(order) + {id};
    assert |rest - {id}| == |rest| - 1;
  }

  /** Appending one identifier's line to what `Unlines` wrote. */
  lemma UnlinesSnoc(prior: string, order: seq<string>, id: string)
    ensures prior + Unlines(order + [id]) == prior + Unlines(order) + id + "\n"
  {
    assert (order + [id])[..|order|] == order;
  }

  /** `save_new_ids`: appends `id + "\n"` for every new identifier, in the
      unspecified order in which the set is iterated (`order`), and returns the
      file's new text (a missing file is created). */
  method SaveNewIds(file: Option<string>, newIds: set<string>) returns (text: string, ghost order: seq<string>)
    ensures text == Contents(file) + Unlines(order)
    ensures |order| == |newIds| && Elements(order) == newIds
    ensures newIds != {} ==> text != [] && text[|text| - 1] == '\n'
    ensures AppendSafe(file) ==> AppendSafe(Some(text))
    ensures AppendSafe(file) && NoBreaks(newIds) ==> LoadIds(Some(text)) == LoadIds(file) + newIds
  {
    text := Contents(file);
    order := [];
    var rest := newIds;
    while rest != {}
      invariant text == Contents(file) + Unlines(order)
      invariant SplitBy(newIds, order, rest)
      decreases |rest|
    {
      var id :| id in rest;
      SplitStep(newIds, order, rest, id);
      UnlinesSnoc(Contents(file), order, id);
      text := text + id + "\n";
      order := order + [id];
      rest := rest - {id};
    }
    assert Terminated(Unlines(order)) && (order != [] ==> |Unlines(order)| > 0) by {
      UnlinesTerminated(order);
    }
    assert AppendSafe(file) && NoBreaks(newIds) ==> LoadIds(Some(text)) == LoadIds(file) + newIds by {
      if AppendSafe(file) && NoBreaks(newIds) {
        assert forall k :: 0 <= k < |order| ==> order[k] in newIds;
        LoadAfterAppend(file, order);
      }
    }
  }
}
