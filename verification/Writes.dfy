/**
 What a call that succeeds leaves behind, and when it succeeds (internal/vault/vault.go:361-423,
 internal/vault/mutators.go:142-197, internal/vault/tags.go:163-449, internal/vault/frontmatter.go:107-211):
 the three write modes, deletes, and the edits of frontmatter and tags, on the note as it is read again.
 */
module Writes {
  import opened Wrappers
  import opened Lines
  import opened Frontmatter
  import opened Fences
  import TagEdits
  import Patch
  import PatchLaws
  import Replace
  import opened Store
  import opened History

  // ---------------------------------------------------------------- one write

  /** A write that succeeds puts its text behind, in front of, or in place of what the note held. */
  lemma WriteLeaves(env: Env, disk: Disk, path: string, content: string, mode: string, ifMatch: string)
    ensures var (disk', answer) := Exec(env, disk, WriteNote(path, content, mode, ifMatch));
            && (answer == Done ==>
                  && disk'.live == disk.live[path := disk'.live[path]]
                  && disk'.trash == disk.trash && disk'.dirs == disk.dirs
                  && (mode == "append" ==> disk'.live[path] == Existing(disk, path) + content)
                  && (mode == "prepend" ==> disk'.live[path] == content + Existing(disk, path))
                  && (mode == "overwrite" ==> disk'.live[path] == content))
            && (answer != Done ==> disk' == disk)
  {
  }

  /** The condition of a write is met: there is none, or there is a readable note with this digest. */
  predicate ConditionMet(env: Env, disk: Disk, path: string, ifMatch: string) {
    ifMatch != "" ==>
      path in disk.live && |disk.live[path]| <= MAX_FILE_SIZE && env.etag(disk.live[path]) == ifMatch
  }

  /** Exactly when a write succeeds, and what refuses it otherwise, the condition before the mode. */
  lemma WriteSucceedsIff(env: Env, disk: Disk, path: string, content: string, mode: string, ifMatch: string)
    ensures var answer := Exec(env, disk, WriteNote(path, content, mode, ifMatch)).1;
            && (answer == Done <==>
                  && ConditionMet(env, disk, path, ifMatch)
                  && (mode == "overwrite"
                      || ((mode == "append" || mode == "prepend")
                          && |content| + |Existing(disk, path)| <= MAX_FILE_SIZE)))
            && (answer == Failed(UnknownMode) <==>
                  ConditionMet(env, disk, path, ifMatch) && mode !in ["overwrite", "append", "prepend"])
  {
  }

  // ---------------------------------------------------------------- writes over a run

  predicate IsPrepend(call: Call, path: string) {
    call.WriteNote? && call.mode == "prepend" && call.path == path
  }

  function PutInFront(env: Env, disk: Disk, call: Call, path: string): string {
    if IsPrepend(call, path) && Exec(env, disk, call).1 == Done then call.content else []
  }

  /** The texts of the prepends to a note that succeeded, the last one first. */
  function PrependedText(env: Env, init: Disk, log: Log, path: string): string {
    if log == [] then []
    else
      var n := |log| - 1;
      PutInFront(env, Replay(env, init, log[..n]), log[n], path) + PrependedText(env, init, log[..n], path)
  }

  lemma AddStep(env: Env, disk: Disk, call: Call, path: string)
    requires Touches(call, path) ==> IsAppend(call, path) || IsPrepend(call, path)
    ensures Existing(Exec(env, disk, call).0, path)
            == PutInFront(env, disk, call, path) + Existing(disk, path) + AddedBy(env, disk, call, path)
  {
    hide CheckedRead, EditText, Outdated, OutdatedCount;
    assert [] + Existing(disk, path) + [] == Existing(disk, path);
    assert "append" != "prepend";
  }

  /**
   No text put in front or behind is lost, and none changes sides: while only prepends and appends touch a
   note, it holds the prepended texts, last one first, what it held, and the appended texts in lock order.
   */
  lemma {:induction false} AddedTextsStand(env: Env, init: Disk, log: Log, path: string)
    requires forall n | 0 <= n < |log| :: Touches(log[n], path) ==> IsAppend(log[n], path) || IsPrepend(log[n], path)
    ensures Existing(Replay(env, init, log), path)
            == PrependedText(env, init, log, path) + Existing(init, path) + AppendedText(env, init, log, path)
  {
    hide Exec, Touches, IsAppend, IsPrepend, AddedBy, PutInFront;
    if log == [] {
      assert [] + Existing(init, path) + [] == Existing(init, path);
    } else {
      var n := |log| - 1;
      var before := Replay(env, init, log[..n]);
      AddedTextsStand(env, init, log[..n], path);
      AddStep(env, before, log[n], path);
      FiveParts(PutInFront(env, before, log[n], path), PrependedText(env, init, log[..n], path),
                Existing(init, path), AppendedText(env, init, log[..n], path),
                AddedBy(env, before, log[n], path));
    }
  }

  lemma FiveParts(a: string, b: string, c: string, d: string, e: string)
    ensures a + (b + c + d) + e == (a + b) + c + (d + e)
  {
  }

  // ---------------------------------------------------------------- deletes

  /** A note that was deleted is gone; it lies in the trash under the stamp exactly if the delete was a soft one. */
  lemma DeleteLeaves(env: Env, disk: Disk, path: string, permanent: bool, stamp: int, ifMatch: string)
    requires Exec(env, disk, DeleteNote(path, permanent, stamp, ifMatch)).1 == Done
    ensures var disk' := Exec(env, disk, DeleteNote(path, permanent, stamp, ifMatch)).0;
            && path in disk.live && path !in disk'.live
            && disk.live == disk'.live[path := disk.live[path]]
            && (if permanent then disk'.trash == disk.trash && disk'.dirs == disk.dirs
                else
                  && disk'.trash == disk.trash[(stamp, path) := disk.live[path]]
                  && disk'.dirs == disk.dirs + {stamp})
  {
  }

  // ---------------------------------------------------------------- edits

  /** An edit replaces exactly its own note, by what the editor makes of the text that was read; refused, it changes nothing. */
  lemma EditLeaves(env: Env, disk: Disk, path: string, edit: Edit, ifMatch: string)
    ensures var (disk', answer) := Exec(env, disk, EditNote(path, edit, ifMatch));
            && (answer == Done <==>
                  && path in disk.live && |disk.live[path]| <= MAX_FILE_SIZE
                  && ConditionMet(env, disk, path, ifMatch) && EditText(env, edit, disk.live[path]).Ok?)
            && (answer == Done ==> disk' == disk.(live := disk.live[path := EditText(env, edit, disk.live[path]).value]))
            && (answer != Done ==> disk' == disk)
  {
    hide EditText;
  }

  /**
   A patch of a note, read as text: the content stands in front of the heading, behind its section, or in place of
   its body, everything else stays; a note without the heading, or an unknown position, refuses it.
   */
  lemma PatchLeaves(env: Env, disk: Disk, path: string, op: Patch.PatchOp, ifMatch: string, h: nat, level: nat, e: nat)
    requires Exec(env, disk, EditNote(path, PatchEdit(op), ifMatch)).1 == Done
    ensures path in disk.live
    ensures PatchLaws.SectionAt(Split(disk.live[path]), op.heading, h, level, e) ==>
              var lines := Split(disk.live[path]);
              var lines' := Split(Exec(env, disk, EditNote(path, PatchEdit(op), ifMatch)).0.live[path]);
              var c := Patch.ContentLines(op.content);
              && op.position in ["before", "after", "replace_body"]
              && lines' == (if op.position == "before" then lines[..h] + c + lines[h..]
                            else if op.position == "after" then lines[..e] + c + lines[e..]
                            else lines[..h + 1] + c + lines[e..])
  {
    hide EditText, SplitAt, PatchLaws.SectionAt, Patch.ContentLines, Patch.Patched, JoinWith;
    EditLeaves(env, disk, path, PatchEdit(op), ifMatch);
    var text := disk.live[path];
    PatchEditIs(env, op, text);
    Patch.PatchedLinesAreRead(text, op);
    if PatchLaws.SectionAt(Split(text), op.heading, h, level, e) {
      PatchLaws.SectionInLines(Split(text), op.heading, h, level, e);
      PatchLaws.PatchedSection(Split(text), op, h, level, e);
    }
  }

  lemma PatchEditIs(env: Env, op: Patch.PatchOp, text: string)
    ensures EditText(env, PatchEdit(op), text).Ok? ==>
              && Patch.Patched(Split(text), op).Ok?
              && Patch.PatchText(text, op) == Ok(EditText(env, PatchEdit(op), text).value)
    ensures EditText(env, PatchEdit(op), text).Err? ==>
              Patch.Patched(Split(text), op).Err?
              && EditText(env, PatchEdit(op), text).error == BadPatch(Patch.Patched(Split(text), op).error)
  {
    hide Patch.Patched, SplitAt, JoinWith;
  }

  /** A replacement in a note: the same gaps, with the replacement between the first of them in place of the pattern. */
  lemma ReplaceLeaves(env: Env, disk: Disk, path: string, pattern: string, replacement: string, max: int)
    requires Exec(env, disk, EditNote(path, ReplaceEdit(pattern, replacement, max), "")).1 == Done
    ensures path in disk.live
    ensures var text := disk.live[path];
            var text' := Exec(env, disk, EditNote(path, ReplaceEdit(pattern, replacement, max), "")).0.live[path];
            var found := Replace.FindAll(text, pattern, 0);
            exists n: nat :: && n <= |found|
                             && (n == |found| || n == max) && (max > 0 ==> n <= max)
                             && Replace.Positions(text, pattern, found[..n], 0)
                             && text == Replace.Interleave(Replace.Gaps(text, pattern, found[..n], 0), pattern)
                             && text' == Replace.Interleave(Replace.Gaps(text, pattern, found[..n], 0), replacement)
  {
    hide EditText, Replace.FindAll, Replace.ReplaceText, Replace.Positions, Replace.Gaps, Replace.Interleave;
    EditLeaves(env, disk, path, ReplaceEdit(pattern, replacement, max), "");
    var text := disk.live[path];
    ReplaceEditIs(env, pattern, replacement, max, text);
    Replace.ReplacesFirstOccurrences(text, pattern, replacement, max);
  }

  lemma ReplaceEditIs(env: Env, pattern: string, replacement: string, max: int, text: string)
    ensures EditText(env, ReplaceEdit(pattern, replacement, max), text).Ok? ==>
              && Replace.ReplaceText(text, pattern, replacement, max).Done?
              && EditText(env, ReplaceEdit(pattern, replacement, max), text).value
                 == Replace.ReplaceText(text, pattern, replacement, max).content
  {
    hide Replace.ReplaceText;
  }

  /** Marshalled YAML: ended by a newline, no line of it the delimiter. */
  ghost predicate WellMarshalled(yaml: Yaml) {
    && (forall a, b {:trigger yaml.withTag(a, b)} :: yaml.withTag(a, b).Some? ==> RawText(yaml.withTag(a, b).value))
    && (forall a, b {:trigger yaml.withoutTag(a, b)} ::
          yaml.withoutTag(a, b).Some? ==> RawText(yaml.withoutTag(a, b).value))
    && (forall a, b {:trigger yaml.updated(a, b)} :: yaml.updated(a, b).Some? ==> RawText(yaml.updated(a, b).value))
  }

  /**
   A frontmatter edit read again: the frontmatter is what its own YAML call made of the old one, and the body
   is untouched. A note without frontmatter gets one, made from the empty text.
   */
  lemma FrontmatterEditsKeepBody(env: Env, edit: Edit, text: string)
    requires WellMarshalled(env.yaml) && EditText(env, edit, text).Ok?
    ensures var p := SplitFrontmatter(text);
            var p' := SplitFrontmatter(EditText(env, edit, text).value);
            && (edit.UpdateFrontmatter? ==>
                  p'.hasFM && env.yaml.updated(p.raw, edit.payload) == Some(p'.raw) && p'.body == p.body)
            && (edit.AddTag? && edit.location != "inline" ==>
                  p'.hasFM && env.yaml.withTag(p.raw, edit.tag) == Some(p'.raw) && p'.body == p.body)
  {
    hide SplitFrontmatter, RawText, Patch.PatchText, Replace.ReplaceText, TagEdits.RemovedLines, Assemble;
    var p := SplitFrontmatter(text);
    match edit
    case UpdateFrontmatter(payload) =>
      SplitOfAssembled(env.yaml.updated(p.raw, payload).value, p.body);
    case AddTag(tag, location) =>
      if location != "inline" {
        SplitOfAssembled(env.yaml.withTag(p.raw, tag).value, p.body);
      }
    case _ =>
  }

  /** A removal edits both halves: the tag list in the frontmatter, and the body outside fenced code. */
  lemma RemovalEditsBothHalves(env: Env, tag: string, text: string)
    requires WellMarshalled(env.yaml) && EditText(env, RemoveTag(tag), text).Ok?
    requires SplitFrontmatter(text).hasFM && env.yaml.hasMapping(SplitFrontmatter(text).raw)
    ensures var p := SplitFrontmatter(text);
            var p' := SplitFrontmatter(EditText(env, RemoveTag(tag), text).value);
            && p'.hasFM && env.yaml.withoutTag(p.raw, tag) == Some(p'.raw)
            && p'.body == Join(TagEdits.RemovedLines(env.letters, Split(p.body), tag))
  {
    hide SplitFrontmatter, RawText, TagEdits.RemovedLines, Assemble;
    var p := SplitFrontmatter(text);
    SplitOfAssembled(env.yaml.withoutTag(p.raw, tag).value,
                     Join(TagEdits.RemovedLines(env.letters, Split(p.body), tag)));
  }
}
