/** The roster document that the `interactionCreate` handler of index.js loads,
    updates in place and writes back, and the commands that change it. */
module Roster {
  import opened Db
  import opened Members
  import opened Render

  class Store {
    /** The current class name, `null` in the document as `None`. */
    var turmaAtual: Option<string>
    /** Whether the current class accepts new members. */
    var turmaAberta: bool
    /** Class name to the ids of its members. */
    var turmas: map<string, seq<string>>

    /** No member list holds an id twice. */
    ghost predicate Valid()
      reads this
    {
      forall name :: name in turmas ==> NoDuplicates(turmas[name])
    }

    /** The document `ensureDB` creates when there is none. */
    constructor Init()
      ensures turmaAtual == None && !turmaAberta && turmas == map[]
      ensures Valid()
    {
      turmaAtual := None;
      turmaAberta := false;
      turmas := map[];
    }

    /** `turma_abrir nome`: makes `nome` the current, open class and creates its
        record with no members when it has none; an existing record and every
        other class are left as they were. */
    method OpenClass(nome: string)
      modifies this
      ensures turmaAtual == Some(nome) && turmaAberta
      ensures nome in turmas
      ensures turmas[nome] == if nome in old(turmas) then old(turmas)[nome] else []
      ensures forall name :: name != nome ==>
        (name in turmas <==> name in old(turmas)) &&
        (name in turmas ==> turmas[name] == old(turmas)[name])
      ensures old(Valid()) ==> Valid()
    {
      turmaAtual := Some(nome);
      turmaAberta := true;
      if nome !in turmas {
        turmas := turmas[nome := []];
      }
    }

    /** `turma_fechar`: clears the open flag and nothing else, so the closed
        class is still the current one. It is accepted with no current class. */
    method CloseClass()
      modifies this
      ensures !turmaAberta
      ensures turmaAtual == old(turmaAtual) && turmas == old(turmas)
      ensures old(Valid()) ==> Valid()
    {
      turmaAberta := false;
    }

    /** `aluno_add id`: refused without a current class or when it is closed;
        otherwise `id` ends up in the current class's list exactly once,
        appended at the end when it was new. A missing record is recreated. */
    method AddStudent(id: string) returns (res: Reply)
      modifies this
      ensures res == (if Current(old(turmaAtual)) == None then NoCurrentClass
                      else if !old(turmaAberta) then ClassClosed
                      else Ok)
      ensures turmaAtual == old(turmaAtual) && turmaAberta == old(turmaAberta)
      ensures res != Ok ==> turmas == old(turmas)
      ensures res == Ok ==>
        var t := turmaAtual.value;
        turmas == old(turmas)[t := AddOnce(MembersOf(old(turmas), t), id)]
      ensures res == Ok && old(Valid()) ==>
        var t := turmaAtual.value;
        multiset(turmas[t])[id] == 1
      ensures old(Valid()) ==> Valid()
    {
      if Current(turmaAtual) == None {
        return NoCurrentClass;
      }
      if !turmaAberta {
        return ClassClosed;
      }
      var turma := turmaAtual.value;
      var alunos := MembersOf(turmas, turma);
      if id !in alunos {
        alunos := alunos + [id];
      }
      turmas := turmas[turma := alunos];
      res := Ok;
    }

    /** `aluno_remover id`: refused without a current class or when the current
        class has no record; otherwise every occurrence of `id` leaves that
        class's list. The open flag is not consulted. */
    method RemoveStudent(id: string) returns (res: Reply)
      modifies this
      ensures res == (if Current(old(turmaAtual)) == None then NoCurrentClass
                      else if old(turmaAtual).value !in old(turmas) then ClassNotFound
                      else Ok)
      ensures turmaAtual == old(turmaAtual) && turmaAberta == old(turmaAberta)
      ensures res != Ok ==> turmas == old(turmas)
      ensures res == Ok ==>
        var t := turmaAtual.value;
        turmas == old(turmas)[t := Without(old(turmas)[t], id)]
      ensures old(Valid()) ==> Valid()
    {
      if Current(turmaAtual) == None {
        return NoCurrentClass;
      }
      var turma := turmaAtual.value;
      if turma !in turmas {
        return ClassNotFound;
      }
      turmas := turmas[turma := Without(turmas[turma], id)];
      res := Ok;
    }

    /** `status`: the reply shows the current class, or "Nenhuma", and the flag. */
    method Status() returns (text: string)
      ensures text == StatusText(turmaAtual, turmaAberta)
    {
      text := StatusText(turmaAtual, turmaAberta);
    }

    /** `listar`: refused without a current class; otherwise lists the current
        class's members, an absent record reading as an empty list. */
    method List() returns (res: Reply, text: string)
      ensures res == (if Current(turmaAtual) == None then NoCurrentClass else Ok)
      ensures text == ListReply(turmaAtual, turmas)
    {
      text := ListReply(turmaAtual, turmas);
      res := if Current(turmaAtual) == None then NoCurrentClass else Ok;
    }
  }

  /** Opening and then closing a class keeps it current and keeps its members,
      so `status` still names it and reports it closed. */
  method OpenCloseStatus(s: Store, nome: string) returns (text: string)
    modifies s
    ensures s.turmaAtual == Some(nome) && !s.turmaAberta
    ensures MembersOf(s.turmas, nome) == MembersOf(old(s.turmas), nome)
    ensures text == StatusText(Some(nome), false)
  {
    s.OpenClass(nome);
    s.CloseClass();
    text := s.Status();
  }
}
