/** The persisted roster document of index.js and the JavaScript truthiness rules
    that the command handlers apply to it. */
module Db {

  datatype Option<T> = None | Some(value: T)

  /** How a command ends. Every outcome but `Ok` is an early reply that comes
      before the document is written back, so it leaves the document as it was. */
  datatype Reply = Ok | NoCurrentClass | ClassClosed | ClassNotFound

  /** The class a handler treats as current. `turmaAtual` is tested for
      truthiness, so both `null` and the empty string mean "no current class". */
  function Current(turmaAtual: Option<string>): (r: Option<string>)
    ensures r.Some? <==> turmaAtual.Some? && turmaAtual.value != ""
    ensures r.Some? ==> r == turmaAtual
  {
    if turmaAtual.Some? && turmaAtual.value != "" then turmaAtual else None
  }

  /** The member list of class `name`, or the empty list when the record is
      missing (`db.turmas[turma]?.alunos || []`). */
  function MembersOf(turmas: map<string, seq<string>>, name: string): (r: seq<string>)
    ensures name in turmas ==> r == turmas[name]
    ensures name !in turmas ==> r == []
  {
    if name in turmas then turmas[name] else []
  }
}
