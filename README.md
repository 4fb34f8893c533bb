# Clinical form (FRSPA-022) — a verified model

The system is a small clinical-records web application. A browser page
(`static/js/main.js`) lets staff:

- register a patient;
- fill in a clinical form sheet (code FRSPA-022);
- enter measurements in a grid of parametros × up to twelve time columns.

The page talks to a Django REST back end (`clinico/`), which:

- stores patients, forms, measurements and their per-field values;
- validates measurement values against the "exactly one payload column" rule;
- merges repeated measurements by their natural key;
- renders a patient preview and two PDF exports.

This project models the logic of those parts in Dafny and proves what they
promise. The modules are:

| module | file | models |
|---|---|---|
| `Text`, `Seqs`, `Json`, `Wrappers` | text.dfy, seqs.dfy, json.dfy, wrappers.dfy | Building blocks: strings (trim, upper case, search, join and split, integer text), first-seen deduplication, sorting, a JSON value with JavaScript's and Python's renderings and truthiness, and `Option`/`Result`. |
| `Models` | models.dfy | Choice codes, value rows, the check constraints, unique keys, `FormularioItemParametro.clean/save` and the `__str__` texts. |
| `Serializers` | serializers.dfy | `MedicionValorSerializer.validate`, the required fields of the patient and form serializers, and `MedicionCreateSerializer.create` as the class `MedicionStore` over two tables. |
| `GridDisplay`, `GridCollect`, `GridLock`, `GridLoad` | griddisplay.dfy, gridcollect.dfy, gridlock.dfy, gridload.dfy | The grid's value display, the option-matching cascade, the save's grouping of cells into payloads, the column lock flags, and the load of stored measurements, each as functions over the grid's contents. |
| `Grid` | grid.dfy | The class `Grid`: the page's cells and time inputs as two arrays, changed in place by load, lock, unlock and reset. Each method is proved against the functions above. |
| `Summary` | summary.dfy | The read-only summary panel: its value text and the 24-hour to 12-hour rewrite of the two time fields. |
| `Api` | api.dfy | `apiRequest`: the CSRF cookie lookup, the cache-busting query parameter, the error-message extraction and the response outcome. |
| `Forms` | forms.dfy | Age calculation, the local date text, the patient and form payloads with their browser-side checks, and the form save's error notice. |
| `Pdf` | pdf.dfy | `pdf_utils.py`: the value text of a field, the header and form-data texts, the 50-column word wrap, the measurement tables and the download file name. |
| `Views` | views.dfy | `views.py`: serializer choice per action, the form-list filter, grouping parametros under items, and the preview's value text. |
| `Tags` | tags.dfy | The `get_item` and `get_val` template filters. |

Modelling conventions:

- Identifiers are integers.
- Timestamps are opaque strings compared by text, as the page's `sort()` compares them.
- A `Decimal` is an integer count of millionths, because the `valor_number` column has six decimal places.
- DOM attributes that the page parses with `parseInt` are kept as optional texts.

Where the prose description of the system and the code disagree, the model follows the code:

- Loading stored measurements writes only as many time inputs as there are distinct timestamps. Later inputs keep their text.
- Loading locks the columns with data on top of the existing locks; it does not unlock the other columns first (`static/js/main.js:1600-1604`).
- The patient save's own "missing fields" message does not contain "Campos requeridos". The form save therefore shows its generic error notice for it (`Forms.PatientMissingShowsGeneric`), not "Complete los campos requeridos".

## Model

| member | source | states |
|---|---|---|
| Models.EstadoCodeRoundTrip | clinico/models.py:6-12 | Each form state is read back from its one-letter code, and exactly the six codes g, p, c, a, v, m name a state. |
| Models.TipoSangreCodeRoundTrip | clinico/models.py:15-23 | Each blood group is read back from its code, and distinct groups have distinct codes. |
| Models.TipoValorCodeRoundTrip | clinico/models.py:26-30 | Each payload kind is read back from its code. |
| Models.DecimalTextsAgree | clinico/models.py:221 | For a six-place decimal of at most 15 significant digits, which a double holds exactly, Python's text is the browser's text followed only by zeros, and the browser's text has a point exactly when the value is not whole. |
| Models.FracDigitsZero | clinico/models.py:221 | The six fractional digits are all zeros exactly when the value is whole. |
| Models.PayloadCount | clinico/models.py:221-224 | At most four payload columns are counted, and none is counted exactly when all four are null. |
| Models.ValorUnicoTipoIff | clinico/models.py:233-257 | The `valor_unico_tipo` check constraint holds exactly when one payload column is non-null. |
| Models.FormularioViolation | clinico/models.py:89-105 | A violated constraint is reported exactly when one of the four checks fails (positive sheet, non-negative ages and count). |
| Models.PacienteInsertUnique | clinico/models.py:45-46 | Adding a patient keeps both unique numbers unique exactly when neither of its numbers is already taken. |
| Models.FipClean | clinico/models.py:158-163 | `clean()` refuses the row exactly when its parametro does not belong to its item. |
| Models.FipSave | clinico/models.py:155-167 | `save()` stores the row exactly when it passes `clean()` and keeps (formulario, parametro) unique, and otherwise reports at least one error. |
| Models.FipSavePreservesValid | clinico/models.py:155-167 | A successful save keeps every stored row consistent with its item and the pair key unique. |
| Models.MedicionValorStrInjective | clinico/models.py:260-261 | A value row's text determines its measurement and field. |
| Models.FipStrInjective | clinico/models.py:169-170 | A form-parametro link's text determines the pair. |
| Models.MedicionStrInjective | clinico/models.py:210-211 | A measurement's text determines form, parametro and timestamp. |
| Models.FormularioStrSheet | clinico/models.py:108-109 | Two sheets of one code and version have different texts unless their sheet numbers are equal. |
| Serializers.Validate | clinico/serializers/serializer.py:249-268 | The data is returned unchanged or refused with the "exactly one type" message. |
| Serializers.ValidateMatchesConstraint | clinico/serializers/serializer.py:249-268 | Validation accepts exactly the data whose new row satisfies the database check constraint. |
| Serializers.Merge | clinico/serializers/serializer.py:381-385 | `update_or_create` sets every given payload column and keeps the stored value of every column not given. |
| Serializers.KindChangeViolates | clinico/serializers/serializer.py:381-385 | Re-posting a numeric field's value as text leaves two columns set, so the stored row breaks the check constraint. |
| Serializers.MergeIdempotent | clinico/serializers/serializer.py:381-385 | Applying the same value data twice gives the same row as applying it once. |
| Serializers.MissingRequired | clinico/serializers/serializer.py:43-47 | The reported fields are exactly the required fields that are absent, null or blank after trimming. |
| Serializers.UpsertValor | clinico/serializers/serializer.py:378-385 | A value without a field is skipped, and one with a field is merged into the row keyed by (medicion, campo). |
| Serializers.UpsertValorFrame | clinico/serializers/serializer.py:381-385 | A value write is refused exactly when the merged row breaks the check constraint. Otherwise it adds or replaces only its own row, which then meets the constraint, and keeps every other row. |
| Serializers.MedicionStore.constructor | clinico/serializers/serializer.py:358-387 | The store starts empty and valid. |
| Serializers.MedicionStore.Create | clinico/serializers/serializer.py:358-387 | `create` changes the tables exactly as the specification function `CreateSpec` says, and keeps them valid. |
| Serializers.MedicionStore.GetOrCreateMedicion | clinico/serializers/serializer.py:365-375 | `get_or_create` returns the id of the row for the key, creating it when absent; an existing row gets only the new observation. |
| Serializers.MedicionStore.WriteValores | clinico/serializers/serializer.py:378-385 | The value loop writes the values in order and stops at the first refused row; the measurements are untouched. |
| Serializers.UpsertKeepsValid | clinico/serializers/serializer.py:381-385 | A successful upsert keeps every value row attached to a stored measurement and within the check constraint. |
| Serializers.CreateKeepsValid | clinico/serializers/serializer.py:358-387 | `create` keeps the tables valid, whether it succeeds or stops at a refused row. |
| Serializers.CreateReusesExisting | clinico/serializers/serializer.py:365-375 | With the key already stored, no measurement is added and the existing id is returned. |
| Serializers.CreateTouchesOnlyObservation | clinico/serializers/serializer.py:372-375 | An existing measurement changes only in its observation, and only when one is sent. |
| Serializers.CreateInsertsNew | clinico/serializers/serializer.py:365-370 | A new key adds exactly one measurement, with a fresh id. |
| Serializers.SkipWithoutCampo | clinico/serializers/serializer.py:379-380 | A value without a field has no effect. |
| Serializers.LaterValueOverwrites | clinico/serializers/serializer.py:378-385 | Of two values for one field, the later one's columns win. |
| Serializers.ApplyValoresIdempotent | clinico/serializers/serializer.py:378-385 | With distinct fields, writing the values twice gives the same tables and outcome as writing them once. |
| Serializers.UntouchedKey | clinico/serializers/serializer.py:378-385 | A field not in the request keeps its stored row, or stays absent. |
| Serializers.CreateIdempotent | clinico/serializers/serializer.py:358-387 | With distinct fields, repeating the same create request leaves the tables as the first call left them and returns the same outcome. |
| Serializers.RepeatedCampoNotIdempotent | clinico/serializers/serializer.py:378-385 | With a repeated field, a replay can fail where the first call succeeded: text then number for one field succeeds once, and the replay's text lands on the number row and breaks the check constraint. |
| GridDisplay.DisplayText | static/js/main.js:1531-1546 | The stored text wins, then the number's browser text, then the boolean, then the stringified json. |
| GridDisplay.DisplayTextEmpty | static/js/main.js:1531-1546 | The display text is empty exactly when the value is null in every column or is the empty text. |
| GridDisplay.BooleanDisplayReadsBack | static/js/main.js:797-800 | A boolean shown in the grid is read back as the same boolean by the save. |
| GridDisplay.ReadsAsYesExamples | static/js/main.js:797-800 | "Sí, con reservas" reads as yes; "No aplica" reads as no. |
| GridDisplay.FindBoolean | static/js/main.js:1553-1561 | The first option whose upper-cased value starts with "SÍ"/"SI" (for true) or "NO" (for false), or none. |
| GridDisplay.FindExact | static/js/main.js:1570 | The first option whose value equals the text, or none. |
| GridDisplay.FindPartial | static/js/main.js:1572-1575 | The first option whose value contains or is contained in the text, or none. |
| GridDisplay.ChooseExactFirst | static/js/main.js:1569-1581 | For a non-boolean value, an option equal to the text is always found and chosen. |
| GridDisplay.EmptyOptionCatchesAll | static/js/main.js:1572-1575 | An option with an empty value always matches, so the search never falls through. Without an exact match it is chosen unless an earlier option matched. |
| GridDisplay.SelectValue | static/js/main.js:1549-1586 | A select ends up holding the value of one of its options, or "" when none fits, since assigning a value no option carries selects nothing. |
| GridDisplay.UnmatchedSelectEmpty | static/js/main.js:1584-1586 | A select with no yes/no option for a yes/no value and no option containing, or contained in, the text reads "" after the write. |
| GridCollect.ValorOf | static/js/main.js:790-801 | A number or text cell sends its trimmed text; a boolean cell sends whether the text reads as yes; other kinds send only the field id. |
| GridCollect.EntryOf | static/js/main.js:773-789 | A cell gets a key exactly when its trimmed value, its parametro and its column's time are all non-empty. |
| GridCollect.KeyTextInjective | static/js/main.js:781 | The key text `parametro-column` determines the parametro and the column. |
| GridCollect.GroupKeys | static/js/main.js:781-789 | The payloads come one per key, in the order the keys first appear among the cells. |
| GridCollect.GroupValores | static/js/main.js:789-803 | Each payload holds the values of its key's cells, in document order. |
| GridCollect.GroupHeaders | static/js/main.js:782-788 | Each payload's parametro and time are those of its key's cells. |
| GridCollect.CollectShape | static/js/main.js:765-811 | The save yields one payload per key in first-seen order, each with its key's values and header. |
| GridCollect.BackendAcceptsCell | static/js/main.js:790-801 | The back end refuses a cell's value exactly when the cell's kind is neither number, text nor boolean. |
| GridLock.SetCellFlags | static/js/main.js:887-902 | The cells of the column get the lock flags and every other cell is unchanged. |
| GridLock.FirstTime | static/js/main.js:905 | The first time input of the column, or none. |
| GridLock.LockThenUnlock | static/js/main.js:885-921 | Locking then unlocking a column is the same as unlocking it. |
| GridLock.SetFlagsIdempotent | static/js/main.js:885-921 | Locking (or unlocking) a column twice is the same as doing it once. |
| GridLock.ResetCell | static/js/main.js:952-958 | The reset empties and enables a cell and keeps its lock mark. |
| GridLock.ResetKeepsStrayMarks | static/js/main.js:924-958 | After the reset, a cell is still marked locked exactly when its column is outside the time inputs' range and it was marked. |
| GridLoad.HorasUnicas | static/js/main.js:1488 | The timestamps of the stored measurements, sorted and without repeats. |
| GridLoad.HorasUnicasCanonical | static/js/main.js:1488 | Any sorted, repeat-free list of exactly those timestamps is that list. |
| GridLoad.Binding | static/js/main.js:1496-1506 | A timestamp is bound to a column exactly when it is the column's place in the sorted list and the column exists. |
| GridLoad.FindCell | static/js/main.js:1525-1526 | The first cell addressed by (parametro, field, column), or none. |
| GridLoad.BindTimes | static/js/main.js:1496-1506 | The first time inputs take the sorted timestamps, and the rest keep their value. |
| GridLoad.ValorWrite | static/js/main.js:1520-1595 | A stored value writes to a cell of its column: a plain cell takes the display text, a select takes one of its option values or ""; the column is marked as having data exactly when the display text is non-empty. |
| GridLoad.UnmatchedSelectLocks | static/js/main.js:1584-1595 | A non-empty value no option fits leaves its select reading "" and still marks the column as having data. |
| GridLoad.LoadCharacterized | static/js/main.js:1509-1598 | After the load, each cell shows the last value written to it (for a select, the option value chosen or ""), and cells never written are empty. |
| GridLoad.LoadColumn | static/js/main.js:1593-1604 | A column is locked by the load exactly when some value with a non-empty display text was written to it. |
| GridLoad.PlacementShape | static/js/main.js:1509-1598 | Where the load writes depends only on the grid's shape, not on the values it held. |
| GridLoad.LoadIdempotent | static/js/main.js:1476-1611 | Loading the same measurements twice leaves the grid as one load left it. |
| Grid.Grid.constructor | static/js/main.js:766-767 | The grid holds the given cells and time inputs. |
| Grid.Grid.Horas | static/js/main.js:768 | The save's column times are the time inputs' values. |
| Grid.Grid.CollectMediciones | static/js/main.js:765-811 | The save's loop builds exactly the payloads the grouping specification gives for the cells. |
| Grid.Grid.LockColumn | static/js/main.js:885-921 | The column's cells and its first time input get the lock (or unlock) flags; nothing else changes. |
| Grid.Grid.UnlockAll | static/js/main.js:924-929 | Every column within the time inputs' count is unlocked. |
| Grid.Grid.Clear | static/js/main.js:947-971 | Every column is unlocked, then every cell and time input is emptied and enabled. |
| Grid.Grid.Load | static/js/main.js:1476-1611 | The load leaves the cells and time inputs as the load specification gives, selects with no fitting option reading "". |
| Grid.Grid.FillTimes | static/js/main.js:1496-1506 | The time inputs are bound to the sorted timestamps. |
| Grid.Grid.ClearValues | static/js/main.js:1509 | Every cell's value is emptied and nothing else changes. |
| Grid.Grid.PlaceValues | static/js/main.js:1512-1598 | The cells take the values placed by the specification (an unmatched select takes ""), and the columns with data are returned in first-seen order. |
| Grid.Grid.LockColumns | static/js/main.js:1600-1604 | Every column with data is locked. |
| Summary.DialHour | static/js/main.js:685-687 | The 12-hour dial reading lies in 1..12 and agrees with the hour modulo 12. |
| Summary.To12Hour | static/js/main.js:680-690 | Text that is not `H:MM`/`HH:MM` is kept. Clock text becomes an 11-character `hh:MM` with the same minutes, ending in "p. m." exactly when the hour is at least 12. |
| Summary.To12HourRoundTrip | static/js/main.js:680-690 | For hours below 24, the 12-hour text gives back the hour and minutes. |
| Summary.To12HourIdempotent | static/js/main.js:680-690 | Rewriting an already rewritten text changes nothing. |
| Summary.To12HourPastMidnight | static/js/main.js:682-690 | "25:00" is accepted and shown as 1 p. m., since the pattern does not bound the hour. |
| Summary.Label | static/js/main.js:723 | An option's label is its text, or its value when the text is empty. |
| Summary.SummaryNeverEmpty | static/js/main.js:672-749 | The panel never shows empty text, and a value with no column set shows "-". |
| Summary.SummaryMatchesGrid | static/js/main.js:672-749 | Outside the time fields and selects, the panel shows the grid's display text, or "-" for empty text. |
| Summary.SummaryTimeField | static/js/main.js:676-691 | A clock text in one of the two time fields is shown in 12-hour form. |
| Summary.SummarySameOptionAsGrid | static/js/main.js:706-742 | For a select, the panel shows the label of the same option whose value the grid holds. |
| Api.UpTo | static/js/main.js:9 | The text before the first `=`. |
| Api.FirstStartingWith | static/js/main.js:8 | The first cookie row starting with `csrftoken=`, or none. |
| Api.TokenIsSecondField | static/js/main.js:5-10 | The token is the cookie row's second `=`-separated field. |
| Api.CsrfTokenOfCookies | static/js/main.js:5-10 | For cookies without `=` in names or values, the token found is the value of the first `csrftoken` cookie, and none when there is none. |
| Api.RequestUrl | static/js/main.js:67-70 | The URL is the API base plus the endpoint, and only GET requests get anything appended. |
| Api.CacheBusterOnce | static/js/main.js:67-70 | A GET URL without a query gets `?_=` and the time once, and a second pass adds nothing. |
| Api.CacheBusterRepeats | static/js/main.js:67-70 | A URL with a query but no `?_=` gets a new `&_=` parameter on every pass. |
| Api.Humanize | static/js/main.js:109 | Underscores become spaces, and other characters are kept or upper-cased. |
| Api.HumanizeIdempotent | static/js/main.js:109 | Humanizing twice is the same as once. |
| Api.HumanizeExamples | static/js/main.js:109 | "teléfono" reads "TeléFono", because `\b` treats non-ASCII letters as word boundaries. |
| Api.ErrorMessage | static/js/main.js:94-117 | Unparsable text is kept, with a default for empty text; the message is empty only when a truthy `detail` or `message` is an array whose items all print as "", such as `{"detail": [""]}`. |
| Api.ErrorDetailFirst | static/js/main.js:101-102 | A non-empty `detail` is the message. |
| Api.ErrorValidationLines | static/js/main.js:105-116 | Without `detail` or `message`, a non-empty error object gives one `Field: errors` line per key. |
| Api.ErrorScalarKeepsText | static/js/main.js:94-117 | A JSON scalar error body leaves the raw text as the message. |
| Api.SuccessOutcome | static/js/main.js:128-140 | 204 resolves to null; another success resolves to the parsed body, or rejects when it does not parse. |
| Api.ResponseOutcomeAsWritten | static/js/main.js:85-140 | Success as above; a failure rejects with a ReferenceError from the undeclared `alertMessage`. |
| Api.ResponseOutcome | static/js/main.js:85-140 | Success as above; a failure rejects with an `Error` carrying the extracted message. |
| Api.AlertMessageMasksError | static/js/main.js:123 | Every failed response rejects with "alertMessage is not defined" instead of the server's message, assuming the page has no element with id `alertMessage` (which a browser would expose as a global). |
| Api.OutcomesAgreeOnSuccess | static/js/main.js:80-140 | The code as written and the corrected code agree on every successful response. |
| Forms.Age | static/js/main.js:12-23 | The age is the number of birthdays reached by today: the last one is reached and the next is not. |
| Forms.AgeExamples | static/js/main.js:12-23 | The day before the 24th birthday gives 23, and the birthday itself gives 24. |
| Forms.AgeMonotone | static/js/main.js:12-23 | A later date never gives a smaller age. |
| Forms.FormatLocalDate | static/js/main.js:982-990 | The text is the year followed by six characters (`-MM-DD`). |
| Forms.FormatLocalDateRoundTrip | static/js/main.js:982-990 | The date text reads back as the same date. |
| Forms.TextOrNull | static/js/main.js:252-253 | An input is sent as null exactly when it is empty. |
| Forms.EmptyLabels | static/js/main.js:240-245 | The labels listed are those of empty inputs, and the list is empty exactly when no input is empty. |
| Forms.PatientPayload | static/js/main.js:232-254 | The browser sends the patient body, or throws the "Campos de paciente requeridos faltantes" message listing the empty inputs. |
| Forms.PatientRefusedIff | static/js/main.js:240 | The patient is refused in the browser exactly when one of the three inputs is empty. |
| Forms.PatientBodyMissing | static/js/main.js:248-254 | Each required key of the patient body is missing for the back end exactly when its input is blank after trimming. |
| Forms.PatientCheckAgreesWithBackend | static/js/main.js:240-254 | Whatever the browser refuses, the back end would refuse too. What it sends is accepted exactly when all three inputs are non-blank after trimming. |
| Forms.BlankNameSlipsPastBrowser | static/js/main.js:240 | A name made of blanks passes the browser's check but is refused by the back end for `nombres` alone. |
| Forms.PatientMissingShowsGeneric | static/js/main.js:431-436 | When the patient check throws, the form save shows "Error al guardar formulario". |
| Forms.IntOrNull | static/js/main.js:368-374 | A number input is sent as null exactly when it does not parse as an integer; otherwise the parsed integer is sent (exactly so up to 2^53). |
| Forms.FormPayload | static/js/main.js:327-376 | An empty patient id gives the "Complete los campos del paciente" notice. An empty version, state or responsible throws "Campos requeridos faltantes". Otherwise the form body is sent. |
| Forms.FormPayloadFillsRequired | static/js/main.js:342-376 | A sent form body carries every field the form serializer requires, non-blank where it is text. |
| Forms.FormPayloadSheetNumber | static/js/main.js:364 | An empty sheet input is sent as sheet 1. |
| Forms.FormBodyLookups | static/js/main.js:360-376 | The sent body maps each key to its input, with the default code and today's date filling empty inputs. |
| Forms.FormErrorNotice | static/js/main.js:431-436 | The notice is "Complete los campos requeridos" exactly when the message contains "Campos requeridos", and otherwise the generic notice. |
| Forms.FormMissingAsksToComplete | static/js/main.js:352-358 | The form's own missing-field error shows "Complete los campos requeridos". |
| Pdf.ObtenerValor | clinico/pdf_utils.py:292-310 | The number wins, then the text, then "Sí"/"No", then the json's Python text; the result is empty exactly when all four are null or the text is empty. |
| Pdf.ObtenerValorOfValidRow | clinico/pdf_utils.py:292-310 | For a row within the check constraint, the text is that of its one payload, so the order of the cascade does not matter. |
| Pdf.CascadeOrderMatters | clinico/pdf_utils.py:292-310 | For a row breaking the constraint, checking the columns in reverse order gives a different text. |
| Pdf.Casilla | clinico/pdf_utils.py:188 | A box shows "" for None and the text itself for text, and is empty exactly then. |
| Pdf.EdadCasilla | clinico/pdf_utils.py:210-213 | The age box is empty exactly when no age was recorded. |
| Pdf.EdadCasillaReadsBack | clinico/pdf_utils.py:210-213 | A recorded age reads back from its box. |
| Pdf.HeaderCodigoVersion | clinico/pdf_utils.py:85-86 | The header shows the form's code and version, or "FRSPA-022" and "01" when they are empty. |
| Pdf.IntOrNA | clinico/pdf_utils.py:254-262 | An optional number shows "N/A" exactly when it is missing or zero, and otherwise its decimal text followed by the unit (`años`, `semanas`). |
| Pdf.TextOrNA | clinico/pdf_utils.py:252-263 | An optional text shows itself when non-empty and is never empty. |
| Pdf.DatosRows | clinico/pdf_utils.py:251-264 | The form-data block has twelve rows, in the source's order and under its labels. |
| Pdf.DatosIdentityRows | clinico/pdf_utils.py:252-254 | Code and version print their text or "N/A"; the sheet prints its number, or "N/A" exactly when it is 0. |
| Pdf.DatosRecordRows | clinico/pdf_utils.py:242-257 | The creation date as `dd/mm/yyyy`, the update timestamp's text, and the insurer's name or "N/A" when the form has none. |
| Pdf.DatosClinicalRows | clinico/pdf_utils.py:258-263 | Diagnosis and responsible print their text or "N/A", the state its label, and each count "N/A" exactly when it is null or 0. |
| Pdf.DateText | clinico/pdf_utils.py:255 | `dd/mm/` with two-digit day and month, then the year. |
| Pdf.ZeroAgeShownDifferently | clinico/pdf_utils.py:210-213 | An age of zero reads "0" in the patient box but "N/A" in the form data. |
| Pdf.DatumLines | clinico/pdf_utils.py:272-286 | A value of at most 50 characters is one line. |
| Pdf.WrapDatum | clinico/pdf_utils.py:272-286 | The wrapping loop produces exactly the lines of the line-filling specification. |
| Pdf.FillKeepsWords | clinico/pdf_utils.py:274-284 | The lines, joined, are the pending line followed by the words, each with its trailing space. |
| Pdf.DatumKeepsWords | clinico/pdf_utils.py:272-286 | Wrapping loses no word and adds none. |
| Pdf.FirstLineEmptyIff | clinico/pdf_utils.py:276-280 | The first printed line is empty exactly when the first word is longer than 50 characters; no later line is empty. |
| Pdf.DatumLinesFit | clinico/pdf_utils.py:272-286 | When no word is longer than 50 characters, no line is longer than 51, counting its trailing space. |
| Pdf.BuildTable | clinico/pdf_utils.py:347-356 | The table is the header row followed by one `[campo, valor, unidad]` row per value, in order. |
| Pdf.BuildSection | clinico/pdf_utils.py:336-380 | No measurements give the "No hay mediciones registradas." notice, and otherwise there is one table per measurement, with its values. |
| Pdf.PdfFilename | clinico/pdf_utils.py:400 | The file name starts with `formulario_`. |
| Pdf.FilenameRoundTrip | clinico/pdf_utils.py:400 | When code and version have no `_`, the file name gives back code, version and sheet number. |
| Views.SerializerFor | clinico/views.py:65-69 | Patients use the list serializer exactly for `list`; forms and measurements use their create serializer exactly for create, update and partial update. |
| Views.SerializerOfOwnResource | clinico/views.py:124-128 | Every action gets a serializer of its own viewset, and a write never uses the patient list serializer. |
| Views.FilterForms | clinico/views.py:97-103 | An absent or empty parameter keeps every form; otherwise exactly the forms whose patient has the trimmed number are kept. |
| Views.WithIdentificationAppend | clinico/views.py:103 | The filter keeps the list's order. |
| Views.FilterIgnoresBlanks | clinico/views.py:102 | Blanks around the number do not change the filtered list. |
| Views.GroupByItem | clinico/views.py:350-355 | The groups come in first-seen item order, each with its item's parametros in row order. |
| Views.ParamsOfCount | clinico/views.py:528-533 | An item's group is empty exactly when no row names the item. |
| Views.ValueText | clinico/views.py:374-386 | The preview's value is never empty, is "—" without a stored value, and is the number's Python text when there is one. |
| Views.ValueTextAgreesWithPdf | clinico/views.py:557-569 | For a row within the check constraint, the preview shows the export's text except for empty text and falsy json. |
| Views.EmptyRowShownDifferently | clinico/views.py:557-569 | A row with all four columns null shows "—" in the preview and "" in the export. |
| Views.CampoLine | clinico/views.py:571-575 | The line is `nombre: valor`, then a space and the unit when the unit is non-empty. |
| Tags.GetItem | clinico/templatetags/clinico_tags.py:5-13 | A falsy dictionary or a missing key gives None, and a present key gives its value. |
| Tags.GetVal | clinico/templatetags/clinico_tags.py:15-20 | A falsy dictionary or a missing key gives "", and a present key gives its value. |
| Tags.GetValIsGetItemWithDefault | clinico/templatetags/clinico_tags.py:5-20 | The two filters agree on present keys and differ only in the default. |
| Tags.StoredNoneVersusMissing | clinico/templatetags/clinico_tags.py:5-20 | `get_item` cannot tell a stored None from a missing key; `get_val` can. |

## Left out

- Network, DOM and browser services are not modelled: `fetch`, `document`, toast messages, `confirm`, `setTimeout` and `window.open`. Their inputs and outputs become parameters.
- Concurrency is not modelled. The save posts every payload at once (`Promise.all`); the model lists the payloads and does not order their arrival.
- Date parsing and time zones are not modelled: `new Date(...)`, `toISOString`, the local `datetime-local` text and `toLocaleString`. Timestamps are opaque strings, and today's date is a parameter.
- The patient search, form search, button-label and accordion flows are not modelled, beyond the summary text they render.
- The ORM, transactions and query ordering are not modelled. `seccion_mediciones` takes its measurements in the order the query gives. The preview's per-field `.first()` lookup becomes an optional value row.
- The PDF drawing (reportlab coordinates, fonts, page breaks) is not modelled. Only the texts and table contents are.
- Pdf.DatosRows: the update timestamp's `strftime` text is a parameter, since time zones are not modelled, and the creation year is printed unpadded, as glibc's `%Y` does; other platforms pad years below 1000.
- Views.GroupByItem: item ids stand for the item objects, and each group's parametros are ids.
- The `valores` GET action of the measurement viewset, the seed command, the migrations and the URL routing are not modelled.
- The patient save's `catch` branch is not modelled: it shows one fixed notice whatever the error and rethrows.
- A response body that fails to parse as JSON on success is modelled as a rejection without its message text.
- Python's `str.strip` and `str.split()` (the PDF word wrap's `Text.Words`) and JavaScript's `trim` are modelled by one whitespace set: space, tab, newline, carriage return, vertical tab, form feed, U+00A0, U+1680, U+2000-U+200A, U+2028, U+2029, U+202F, U+205F and U+3000. JavaScript's `trim` also removes U+FEFF, and Python's `strip` and `split()` also treat U+001C-U+001F and U+0085 as whitespace; text with those characters is trimmed or split differently.
- GridCollect.AsValorData: a negative `data-campo-id` becomes no campo, so the value is skipped. The back end's primary-key field would refuse the unknown id and fail the whole request. GridCollect.BackendAcceptsCell is an if-and-only-if of the model only. The page renders only the ids of stored campos.
- GridDisplay.DisplayText: a `valor_number` of more than 15 significant digits is shown exactly, while the browser's `parseFloat` rounds it to a double (`999999999999.999999` shows as `1000000000000`). Floating point is not modelled. The summary panel's text inherits this.
- GridLoad.ValorWrite: a number's text is exact only up to 15 significant digits, as for GridDisplay.DisplayText.
- GridLoad.LoadCharacterized: a number's text is exact only up to 15 significant digits, as for GridDisplay.DisplayText.
- Grid.Grid.Load: a number's text is exact only up to 15 significant digits, as for GridDisplay.DisplayText.
- Grid.Grid.PlaceValues: a number's text is exact only up to 15 significant digits, as for GridDisplay.DisplayText.
- Models.DecimalTextsAgree: stated only for values of at most 15 significant digits, since longer ones are rounded by the browser, as above.
- GridDisplay.DisplayText, Pdf.ObtenerValor, Views.ValueText and Api.ErrorMessage: JSON numbers are integers, so a fractional number such as `{"peso": 1.5}` has no model. The escaping of quotes, backslashes and control characters by `JSON.stringify` and by Python's `repr` is not modelled either.
- Forms.IntOrNull: `parseInt` returns a double, so a digit string above 2^53 is sent rounded ("9007199254740993" goes out as 9007199254740992), and one of 309 or more digits parses to `Infinity`, which `JSON.stringify` sends as null. The model sends the exact integer in both cases.
- Json.Get: takes the first member with a key, while `JSON.parse` and Python's `json.loads` keep the last one when a key repeats; bodies with repeated keys are read differently.
- Text.ParseInt does not accept the `0x` prefix that `parseInt` honours without a radix (it matters for GridCollect.AttrInt). Text.UpperChar upper-cases only ASCII and Latin-1, while `toUpperCase` also maps 'ı' to 'I' and 'ſ' to 'S' (it matters for GridDisplay.ReadsAsYes and GridDisplay.FindBoolean). Api.Entries keeps the body's key order, while `Object.entries` lists integer-like keys first.
- GridLoad.HorasUnicas: sorts by the code-point order of the timestamp texts. This is what `Array.prototype.sort` does for strings made of BMP characters.

## Findings

| source | as written | input that shows it | evidently intended | confidence | as-written member | corrected member |
|---|---|---|---|---|---|---|
| static/js/main.js:123 | Every non-OK response calls `mostrarMensaje(alertMessage, 'error')`, but no `alertMessage` is declared in `apiRequest`, so a ReferenceError is thrown before line 125. The extracted server message is lost, and callers see "alertMessage is not defined", unless the page has an element with id `alertMessage`, which the browser would expose as that name; the message is lost either way. | A 404 response with body `{"detail": "No encontrado"}` | Show and throw the extracted `errorMessage` | not executed | Api.ResponseOutcomeAsWritten (Api.AlertMessageMasksError) | Api.ResponseOutcome |
