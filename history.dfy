/** The send history kept in historico-envios.json: the record the broadcast
    writes for each group it reaches, how `salvarHistorico` appends it to the
    file, and the two routes that read and empty the file. */
module History {
  import opened Wrappers

  /** `status`: `'sucesso'` or `'erro'`. */
  datatype Status = Success | Failure

  /** A date as the server writes it with `toLocaleDateString('pt-BR')`,
      that is `dd/mm/yyyy`. */
  datatype Date = Date(day: int, month: int, year: int)

  /** The clock readings taken when a send starts, already shifted by the
      server's `-3` hours: `hora`, `data` and `timestamp`. */
  datatype Stamp = Stamp(time: string, date: Date, instant: string)

  /** `posicao`, written `${index}/${total}`. */
  datatype Position = Position(index: nat, total: nat)

  /** One entry of the history file (the random `id` is not modelled). */
  datatype Record = Record(
    groupId: string,
    status: Status,
    time: string,
    date: Date,
    name: string,
    instant: string,
    position: Position,
    message: string,
    error: Option<string>)

  /** The fixed parts of the `mensagem` field. */
  const SuccessNote: string := "Mensagem enviada com sucesso para<br>"
  const FailureNote: string := "Erro ao enviar para<br>"
  const ReasonNote: string := ":<br>"

  /** The record written after a successful send to the `index`-th group
      (counting from 0) of a batch of `total`. */
  function SuccessRecord(groupId: string, name: string, stamp: Stamp, index: nat, total: nat): Record {
    Record(groupId, Success, stamp.time, stamp.date, name, stamp.instant,
      Position(index + 1, total), SuccessNote + name, None)
  }

  /** The record written when sending to the `index`-th group failed with
      the error message `reason`. */
  function FailureRecord(groupId: string, name: string, stamp: Stamp, index: nat, total: nat, reason: string): Record {
    Record(groupId, Failure, stamp.time, stamp.date, name, stamp.instant,
      Position(index + 1, total), FailureNote + name + ReasonNote + reason, Some(reason))
  }

  /** historico-envios.json: missing, present but not parseable as JSON,
      parseable JSON that is not an array (`null` told apart from an object,
      number, string or boolean), or the array of records it holds. */
  datatype HistoryFile = Missing | Corrupt | NotAnArray(isNull: bool) | Holds(records: seq<Record>)

  /** What `salvarHistorico` starts from when the file is missing, corrupt
      or an array: the stored array, or `[]` when it cannot be read or
      parsed. */
  function Existing(file: HistoryFile): seq<Record> {
    if file.Holds? then file.records else []
  }

  /** One `salvarHistorico` call pushing `r`. On a value that is not an array
      `push` throws, the catch swallows the error and nothing is written. */
  function Push(file: HistoryFile, r: Record): HistoryFile {
    if file.NotAnArray? then file else Holds(Existing(file) + [r])
  }

  /** The file after `salvarHistorico` has pushed each of `records` in turn;
      with nothing to push the file is not touched. */
  function AppendAll(file: HistoryFile, records: seq<Record>): HistoryFile {
    if records == [] || file.NotAnArray? then file else Holds(Existing(file) + records)
  }

  /** Pushing one more record extends the same array. */
  lemma AppendOne(file: HistoryFile, records: seq<Record>, r: Record)
    ensures Push(AppendAll(file, records), r) == AppendAll(file, records + [r])
    ensures AppendAll(AppendAll(file, records), [r]) == AppendAll(file, records + [r])
  {
    if file.NotAnArray? {
    } else if records == [] {
      assert records + [r] == [r];
    } else {
      assert Existing(AppendAll(file, records)) == Existing(file) + records;
      assert Existing(file) + records + [r] == Existing(file) + (records + [r]);
    }
  }

  /** Appending keeps what the file held, in order, and puts the new records
      after it; a missing or unparseable file is replaced by the new records
      alone; a file holding JSON that is not an array is left as it was and
      the new records are lost. */
  lemma AppendKeepsHistory(file: HistoryFile, records: seq<Record>)
    requires records != []
    ensures AppendAll(file, records).Holds? <==> !file.NotAnArray?
    ensures file.NotAnArray? ==> AppendAll(file, records) == file
    ensures file.Holds? ==> AppendAll(file, records).records == file.records + records
    ensures file.Missing? || file.Corrupt? ==> AppendAll(file, records).records == records
  {
  }

  /** The reply of `GET /historico-envios`; `Unlisted` is a 200 whose body is
      the stored JSON value that is not a list. */
  datatype HistoryReply = NotFound | ServerError | Unlisted | Listed(records: seq<Record>)

  /** `GET /historico-envios`: 404 for a missing file; 500 for one that does
      not parse, and for `null`, whose `length` throws; a non-array value
      other than `null` is sent back as it is; otherwise the stored records
      in file order. */
  function ReadHistory(file: HistoryFile): (reply: HistoryReply)
    ensures reply.NotFound? <==> file.Missing?
    ensures reply.ServerError? <==> file.Corrupt? || file == NotAnArray(true)
    ensures reply.Unlisted? <==> file == NotAnArray(false)
    ensures reply.Listed? ==> reply.records == Existing(file)
  {
    match file
    case Missing => NotFound
    case Corrupt => ServerError
    case NotAnArray(isNull) => if isNull then ServerError else Unlisted
    case Holds(records) => Listed(records)
  }

  /** `DELETE /delete-historico-envios`: the file is rewritten as `[]`. */
  const Emptied: HistoryFile := Holds([])

  /** After the history is emptied, reading it lists exactly the records
      appended since. */
  lemma EmptiedThenAppended(records: seq<Record>)
    ensures ReadHistory(AppendAll(Emptied, records)) == Listed(records)
  {
  }
}
