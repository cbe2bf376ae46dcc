/** The converter's settings: the built-in defaults, the merge with a
    user's configuration file, and the typed view the rest of the model reads. */
module Settings {
  import opened Outcomes

  /** A JSON value as it can appear in the configuration file. */
  datatype Value =
    | Number(n: int)
    | Flag(b: bool)
    | Text(s: string)
    | Texts(items: seq<string>)
    | OtherJson

  const DurationKey := "duracao_atendimento_minutos"
  const ColumnsKey := "colunas_esperadas"
  const TimeFormatKey := "formato_hora"
  const UndatedKey := "permitir_data_vazia_primeira_linha"
  const TemplateKey := "caminho_template"
  const HeaderKey := "extrair_cabecalho_de_entrada"

  const DateColumn := "DATA"
  const TimeColumn := "HOR\U{00C1}RIO"
  const ProcedureColumn := "PROCEDIMENTO"
  const HourMinute := "%H:%M"

  /** The built-in settings. */
  function Defaults(): map<string, Value> {
    map[
      DurationKey := Number(40),
      ColumnsKey := Texts([DateColumn, TimeColumn, ProcedureColumn]),
      TimeFormatKey := Text(HourMinute),
      UndatedKey := Flag(false),
      TemplateKey := Text("template_saida/template_saida.docx"),
      HeaderKey := Flag(true)
    ]
  }

  /** What reading the configuration file produced: no file, a file that is
      not a JSON object (or could not be read), or a JSON object. */
  datatype Source = Absent | Unreadable | Parsed(entries: map<string, Value>)

  /** The settings in force: the defaults, with every key of a parsed file
      overriding the default of the same name. */
  function Load(src: Source): (m: map<string, Value>)
    ensures !src.Parsed? ==> m == Defaults()
    ensures src.Parsed? ==> m.Keys == Defaults().Keys + src.entries.Keys
    ensures src.Parsed? ==> forall k :: k in src.entries ==> m[k] == src.entries[k]
    ensures forall k :: k in Defaults() && (!src.Parsed? || k !in src.entries) ==> m[k] == Defaults()[k]
  {
    match src
    case Parsed(entries) => Defaults() + entries
    case _ => Defaults()
  }

  /** Whatever the file says, every setting the converter looks up is present. */
  lemma LoadHasEveryKey(src: Source)
    ensures Defaults().Keys <= Load(src).Keys
  {
  }

  /** The settings as the scan and the generator use them. The time format
      is not a field: the model reads and writes times with `%H:%M` only. */
  datatype Config = Config(
    duration: int,
    expectedColumns: seq<string>,
    allowUndated: bool,
    templatePath: string,
    extractHeader: bool)

  /** `m` holds exactly the values of `c` under their keys. */
  predicate Describes(m: map<string, Value>, c: Config) {
    && DurationKey in m && m[DurationKey] == Number(c.duration)
    && ColumnsKey in m && m[ColumnsKey] == Texts(c.expectedColumns)
    && UndatedKey in m && m[UndatedKey] == Flag(c.allowUndated)
    && TemplateKey in m && m[TemplateKey] == Text(c.templatePath)
    && HeaderKey in m && m[HeaderKey] == Flag(c.extractHeader)
  }

  /** The typed view of a settings map, when every value has the type the
      converter expects and the time format is `%H:%M`. */
  function Decode(m: map<string, Value>): (r: Option<Config>)
    ensures r.Some? <==> TimeFormatKey in m && m[TimeFormatKey] == Text(HourMinute)
                         && (exists c :: Describes(m, c))
    ensures r.Some? ==> Describes(m, r.value)
  {
    if && DurationKey in m && m[DurationKey].Number?
       && ColumnsKey in m && m[ColumnsKey].Texts?
       && TimeFormatKey in m && m[TimeFormatKey] == Text(HourMinute)
       && UndatedKey in m && m[UndatedKey].Flag?
       && TemplateKey in m && m[TemplateKey].Text?
       && HeaderKey in m && m[HeaderKey].Flag?
    then
      var c := Config(m[DurationKey].n, m[ColumnsKey].items, m[UndatedKey].b,
                      m[TemplateKey].s, m[HeaderKey].b);
      assert Describes(m, c);
      Some(c)
    else None
  }

  const DefaultConfig := Config(40, [DateColumn, TimeColumn, ProcedureColumn], false,
                                "template_saida/template_saida.docx", true)

  /** Without a usable file the converter runs on the built-in settings:
      forty-minute appointments, the three expected columns, undated rows
      reported. */
  lemma DefaultsDecode(src: Source)
    requires !src.Parsed?
    ensures Decode(Load(src)) == Some(DefaultConfig)
  {
  }

  /** A file that only changes the duration changes only the duration. */
  lemma DurationOverride(minutes: int)
    ensures Decode(Load(Parsed(map[DurationKey := Number(minutes)])))
            == Some(DefaultConfig.(duration := minutes))
  {
  }
}
