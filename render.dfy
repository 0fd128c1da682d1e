/** The two read-only renderings of index.js: the `status` reply and the
    `listar` reply, together with a reader's view of a text as its lines. */
module Render {
  import opened Db

  const NoClassName := "Nenhuma"
  const EmptyPlaceholder := "_Nenhum aluno ainda_"
  const NoClassReply := "❌ Não tem turma atual."
  const ListHeader := "👥 **Alunos:**"
  const StatusPrefix := "📌 Turma atual: **"

  /** `<@id>`, the platform's mention of a member. */
  function Mention(id: string): string
  {
    "<@" + id + ">"
  }

  /** `parts.join(sep)`. */
  function Join(parts: seq<string>, sep: char): string
    decreases |parts|
  {
    if |parts| == 0 then ""
    else if |parts| == 1 then parts[0]
    else parts[0] + [sep] + Join(parts[1..], sep)
  }

  /** A text read as its lines: the pieces between the newline characters. */
  function Lines(s: string): (r: seq<string>)
    ensures |r| >= 1
    decreases |s|
  {
    if |s| == 0 then [""]
    else
      var rest := Lines(s[1..]);
      if s[0] == '\n' then [""] + rest
      else [[s[0]] + rest[0]] + rest[1..]
  }

  /** One mention per member, in list order. */
  function MentionLines(ids: seq<string>): seq<string>
  {
    seq(|ids|, i requires 0 <= i < |ids| => Mention(ids[i]))
  }

  /** The member block of `listar`: the mentions joined by newlines, or the
      placeholder for an empty list. */
  function MemberBlock(ids: seq<string>): (r: string)
    ensures |ids| == 0 ==> r == EmptyPlaceholder
    ensures |ids| > 0 ==> |Mention(ids[0])| <= |r| && r[..|Mention(ids[0])|] == Mention(ids[0])
  {
    if |ids| == 0 then EmptyPlaceholder
    else
      var r := Join(MentionLines(ids), '\n');
      assert MentionLines(ids)[0] == Mention(ids[0]);
      JoinStartsWithFirst(MentionLines(ids), '\n');
      r
  }

  function ClassLine(turma: string): string
  {
    "📚 **Turma:** **" + turma + "**"
  }

  /** The content `listar` replies with for current class `turma`. */
  function ListText(turma: string, ids: seq<string>): (r: string)
    ensures |r| > |ClassLine(turma)| && r[..|ClassLine(turma)|] == ClassLine(turma)
    ensures r[|ClassLine(turma)|..] == "\n" + ListHeader + "\n" + MemberBlock(ids)
  {
    ClassLine(turma) + "\n" + ListHeader + "\n" + MemberBlock(ids)
  }

  /** The `listar` reply for a whole document: the refusal when there is no
      current class, otherwise the roster of the current class (an absent
      record reads as an empty list). */
  function ListReply(turmaAtual: Option<string>, turmas: map<string, seq<string>>): (r: string)
    ensures r == NoClassReply <==> Current(turmaAtual) == None
    ensures Current(turmaAtual).Some? ==>
      r == ListText(turmaAtual.value, MembersOf(turmas, turmaAtual.value))
  {
    match Current(turmaAtual)
    case None => NoClassReply
    case Some(turma) =>
      var t := ListText(turma, MembersOf(turmas, turma));
      assert t[0] == '📚' != NoClassReply[0];
      t
  }

  /** The class name `status` shows: the current class, or "Nenhuma". */
  function ShownClass(turmaAtual: Option<string>): string
  {
    match Current(turmaAtual)
    case None => NoClassName
    case Some(turma) => turma
  }

  function ShownFlag(turmaAberta: bool): string
  {
    if turmaAberta then "Sim" else "Não"
  }

  /** The content `status` replies with. */
  function StatusText(turmaAtual: Option<string>, turmaAberta: bool): (r: string)
    ensures |r| >= 5 && r[|r| - 5..] == (if turmaAberta then "Sim**" else "Não**")
    ensures |StatusPrefix| <= |r| && r[..|StatusPrefix|] == StatusPrefix
  {
    StatusPrefix + ShownClass(turmaAtual) + "**\n📖 Turma aberta: **"
      + ShownFlag(turmaAberta) + "**"
  }

  /** A text without a newline is a single line. */
  lemma {:induction false} LinesOfLine(a: string)
    requires '\n' !in a
    ensures Lines(a) == [a]
    decreases |a|
  {
    if |a| > 0 {
      LinesOfLine(a[1..]);
      assert [a[0]] + a[1..] == a;
    }
  }

  /** A newline ends the first line; what follows it is read on its own. */
  lemma {:induction false} LinesAfterBreak(a: string, b: string)
    requires '\n' !in a
    ensures Lines(a + "\n" + b) == [a] + Lines(b)
    decreases |a|
  {
    if |a| == 0 {
      assert a + "\n" + b == "\n" + b;
      assert ("\n" + b)[1..] == b;
    } else {
      var s := a + "\n" + b;
      assert s[0] == a[0] && s[1..] == a[1..] + "\n" + b;
      LinesAfterBreak(a[1..], b);
      assert [a[0]] + a[1..] == a;
    }
  }

  /** Reading lines undoes joining by newlines, as long as no part holds one. */
  lemma {:induction false} LinesOfJoin(parts: seq<string>)
    requires |parts| > 0
    requires forall k :: 0 <= k < |parts| ==> '\n' !in parts[k]
    ensures Lines(Join(parts, '\n')) == parts
    decreases |parts|
  {
    if |parts| == 1 {
      LinesOfLine(parts[0]);
    } else {
      LinesOfJoin(parts[1..]);
      LinesAfterBreak(parts[0], Join(parts[1..], '\n'));
      assert [parts[0]] + parts[1..] == parts;
    }
  }

  lemma {:induction false} JoinStartsWithFirst(parts: seq<string>, sep: char)
    requires |parts| > 0
    ensures |parts[0]| <= |Join(parts, sep)| && Join(parts, sep)[..|parts[0]|] == parts[0]
  {
  }

  /** The member block is the placeholder exactly when the list is empty:
      a mention starts with '<', the placeholder with '_'. */
  lemma MemberBlockEmpty(ids: seq<string>)
    ensures MemberBlock(ids) == EmptyPlaceholder <==> |ids| == 0
  {
    if |ids| > 0 {
      assert MentionLines(ids)[0] == Mention(ids[0]);
      assert MemberBlock(ids)[0] == '<' != EmptyPlaceholder[0];
    }
  }

  /** Read line by line, the member block is one mention per member, in
      list order, or the placeholder alone. */
  lemma {:induction false} MemberBlockLines(ids: seq<string>)
    requires forall k :: 0 <= k < |ids| ==> '\n' !in ids[k]
    ensures Lines(MemberBlock(ids)) == if |ids| == 0 then [EmptyPlaceholder] else MentionLines(ids)
  {
    if |ids| == 0 {
      LinesOfLine(EmptyPlaceholder);
    } else {
      var ms := MentionLines(ids);
      forall k | 0 <= k < |ms| ensures '\n' !in ms[k] {
        assert ms[k] == "<@" + ids[k] + ">";
      }
      LinesOfJoin(ms);
    }
  }

  /** Read line by line, the `listar` content is the class line, the header,
      and then one mention per member in list order, or the placeholder. */
  lemma {:induction false} ListTextLines(turma: string, ids: seq<string>)
    requires '\n' !in turma
    requires forall k :: 0 <= k < |ids| ==> '\n' !in ids[k]
    ensures Lines(ListText(turma, ids)) ==
      [ClassLine(turma), ListHeader] + (if |ids| == 0 then [EmptyPlaceholder] else MentionLines(ids))
  {
    var block := MemberBlock(ids);
    var line := ClassLine(turma);
    MemberBlockLines(ids);
    LinesAfterBreak(ListHeader, block);
    LinesAfterBreak(line, ListHeader + "\n" + block);
    assert ListText(turma, ids) == line + "\n" + (ListHeader + "\n" + block);
  }

  /** With no current class, `status` reads exactly as it would for a class
      named "Nenhuma": the reply cannot tell the two apart. */
  lemma StatusNoClass(turmaAtual: Option<string>, turmaAberta: bool)
    requires Current(turmaAtual) == None
    ensures StatusText(turmaAtual, turmaAberta) == StatusText(Some(NoClassName), turmaAberta)
  {
  }

  /** A middle piece is recovered from its text once the prefix and the
      suffix around it are known. */
  lemma MiddleCancels(p: string, a: string, b: string, q: string)
    requires p + a + q == p + b + q
    ensures a == b
  {
    var t := p + a + q;
    assert |a| == |b|;
    assert a == t[|p|..|p| + |a|];
  }

  /** Two `status` replies are equal exactly when they show the same class
      name and the same open flag. */
  lemma StatusTextDecodes(c1: Option<string>, o1: bool, c2: Option<string>, o2: bool)
    ensures StatusText(c1, o1) == StatusText(c2, o2) <==>
      ShownClass(c1) == ShownClass(c2) && o1 == o2
  {
    var t1, t2 := StatusText(c1, o1), StatusText(c2, o2);
    if t1 == t2 {
      // The flag is read from the last five characters.
      assert "Sim**"[0] != "Não**"[0];
      assert o1 == o2;
      var q := "**\n📖 Turma aberta: **" + ShownFlag(o1) + "**";
      assert t1 == StatusPrefix + ShownClass(c1) + q;
      assert t2 == StatusPrefix + ShownClass(c2) + q;
      MiddleCancels(StatusPrefix, ShownClass(c1), ShownClass(c2), q);
    }
  }
}
