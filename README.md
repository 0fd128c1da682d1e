# Class roster of the UNI.PRF guild bot

The bot keeps one JSON document: the current class (`turmaAtual`), whether that
class is open (`turmaAberta`) and, for each class name, the list of member ids
enrolled in it (`turmas[nome].alunos`). Slash commands read this document, may
change it, and write it back whole. This project models that document and the
commands that act on it:

- `turma_abrir` opens a class, creating it if needed;
- `turma_fechar` closes the current class;
- `aluno_add` and `aluno_remover` add and remove a member of the current class;
- `status` and `listar` render the document as text and change nothing.

Each command is a guarded transition. It either stops with an early reply and
leaves the document unchanged, or it makes a small update and writes the
document back.

Files:

- `db.dfy` (module `Db`): `Option`, the `Reply` outcomes, the JavaScript
  truthiness of `turmaAtual` (`Current`: `null` and `""` both mean "no current
  class"), and the member list of a class with `[]` for a missing record
  (`MembersOf`).
- `members.dfy` (module `Members`): the two list updates. `AddOnce` is
  "push unless already included". `Without` is the `filter`. Both carry their
  properties: order, multiset of contents, and the no-duplicates invariant.
- `render.dfy` (module `Render`): the `status` and `listar` texts. `Lines`
  reads a text back as its lines, and the lemmas say what a reader sees.
- `roster.dfy` (module `Roster`): class `Store`, whose fields are the document
  and whose methods are the four state-changing commands plus the two renderings.

Persisting the document is the state change itself. A method's postcondition
states the document that `writeDB` stores. An early return leaves every field
as it was.

`aluno_add` has two refusals: no current class (index.js:160) and current
class closed (index.js:161). The model keeps them apart as `NoCurrentClass`
and `ClassClosed`.

## Model

| member | source | states |
|---|---|---|
| `Roster.Store.Init` | index.js:44-49 | the fresh document has no current class, is closed and holds no classes; no list holds a duplicate |
| `Roster.Store.OpenClass` | index.js:125-130 | current class becomes `nome` and is open; `turmas[nome]` is the old list if the record existed, else empty; every other class is untouched; the no-duplicates invariant is kept |
| `Roster.Store.CloseClass` | index.js:144-146 | only the open flag changes, to false; the current class name and every class record stay, even with no current class |
| `Roster.Store.AddStudent` | index.js:159-170 | `NoCurrentClass` when `turmaAtual` is null or empty; `ClassClosed` when it is closed; on either refusal the document is unchanged; otherwise the current class's list, recreated empty if missing, becomes `AddOnce` of it; on a duplicate-free document `id` then occurs exactly once; the invariant is kept |
| `Roster.Store.RemoveStudent` | index.js:184-193 | `NoCurrentClass` when there is no current class; `ClassNotFound` when its record is missing; the open flag is not consulted; on a refusal nothing changes; otherwise only the current class's list changes, to `Without` of it |
| `Roster.Store.Status` | index.js:119-122 | the reply is `StatusText` of the current class and the open flag |
| `Roster.Store.List` | index.js:198-211 | `NoCurrentClass` exactly when there is no current class; the reply text is `ListReply` of the document |
| `Roster.OpenCloseStatus` | index.js:144-152 | after opening and then closing `nome`, `turmaAtual` is still `nome` and the flag is false; its member list is unchanged; the status reply is `StatusText(Some(nome), false)`, and for a non-empty `nome` the class is still current and the reply names it with "Não" |
| `Db.Current` | index.js:120 | the current class is present exactly when `turmaAtual` is a non-empty string, and then it is that string; `null` and `""` both mean no current class, as the truthiness guards at index.js:120, 160, 185 and 199 treat them |
| `Db.MembersOf` | index.js:202 | the member list of a recorded class is its stored list; a class without a record reads as the empty list, as at index.js:166 and 202 |
| `Render.StatusText` | index.js:120-122 | the status reply opens with the "Turma atual" prefix and its last characters show the open flag as `Sim` or `Não` |
| `Render.StatusNoClass` | index.js:120 | with no current class (null or empty), the status reply equals the one for a class literally named `Nenhuma` |
| `Render.ListText` | index.js:208 | the `listar` reply starts with the class line naming `turma`, then the "Alunos" header, then the member block |
| `Render.MemberBlock` | index.js:203-205 | the member block is the placeholder for an empty list and otherwise starts with the first member's mention |
| `Members.AddOnce` | index.js:166-169 | the old list is a prefix of the result, which is at most one longer; the count of `id` stays if it was present, else it is 1; all other counts stay; a duplicate-free list stays duplicate-free and then holds `id` exactly once |
| `Members.AddOnceIdempotent` | index.js:167-169 | adding the same id a second time changes nothing |
| `Members.Without` | index.js:192 | the multiset of the result is the old one with every `id` dropped; an absent id leaves the list as it is; the no-duplicates invariant is kept |
| `Members.WithoutMembership` | index.js:192 | an id is in the result exactly when it was in the list and is not the removed id |
| `Members.WithoutConcat` | index.js:192 | filtering distributes over concatenation, so the surviving ids keep their relative order |
| `Members.AddThenRemove` | index.js:159-196 | adding a new id and then removing it gives back the original list |
| `Members.NoDuplicatesCount` | index.js:167-168 | in a duplicate-free list every id occurs once or not at all |
| `Render.ListReply` | index.js:198-205 | the reply is the refusal text exactly when there is no current class; otherwise it is the listing of the current class, with a missing record read as an empty list |
| `Render.MemberBlockEmpty` | index.js:203-205 | the member block is the placeholder `_Nenhum aluno ainda_` exactly when the list is empty |
| `Render.LinesOfJoin` | index.js:204 | reading lines back out of a newline join gives the parts, if no part holds a newline |
| `Render.MemberBlockLines` | index.js:203-205 | read by lines, the member block is one `<@id>` per member in list order, or the placeholder alone |
| `Render.ListTextLines` | index.js:207-209 | read by lines, the `listar` reply is the class line, the "Alunos" header, then the member block's lines |
| `Render.StatusTextDecodes` | index.js:120-122 | two status texts are equal exactly when they show the same class name and the same open flag |

## Left out

- The HTTP keep-alive server and its `/` and `/health` routes (index.js:31-38): plumbing unrelated to the roster.
- File persistence `ensureDB`/`readDB`/`writeDB` (index.js:41-58). Only the initial document is modelled (`Roster.Store.Init`). "Write after mutation" is the state a method leaves behind.
- Environment-variable validation `need` (index.js:22-28): startup configuration.
- Discord client setup, command registration and login (index.js:61-108, 214): calls into a foreign library.
- `ping` (index.js:115-117): a fixed reply that never reads or touches the document.
- Channel announcements and the student-role grant (index.js:133-139, 148-154, 173-179). They are external calls, and their failures are caught and ignored, so they never affect the document.
- The reply texts of the four state-changing commands. Their outcome is the `Reply` value: `Ok`, `NoCurrentClass`, `ClassClosed` or `ClassNotFound`. The texts of `status` and `listar` are modelled.
- The `cursos` field of a class record and the top-level `alunos` map. index.js creates them and never reads or changes them.
- JavaScript object-key quirks are not modelled. A class named after an `Object.prototype` member, such as `constructor`, would find an inherited value. The model treats every name as an ordinary map key.
- Text lengths are counted in Unicode scalar values, not UTF-16 code units. No property here depends on lengths.
- The document is assumed well-formed, as index.js assumes. The `Valid` invariant (no duplicate ids in a list) is preserved, never required.
- `Render.ListTextLines`, `Render.MemberBlockLines`, `Render.LinesOfJoin`: these require that class names and member ids hold no newline. Member ids are numeric and command string options are single-line, but index.js itself does not check it.
