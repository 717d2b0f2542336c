/** Label translation and classification (EventosV2.py:199-228): a known
    English label becomes its fixed Spanish text, and every row is assigned
    one of four classification identifiers, or none, by its final label. */
module Labels {
  import opened Strings
  import opened Records

  /** `translation_map` (lines 200-209). */
  const TRANSLATIONS: map<string, string> := map[
    "camera obstruction" := "obstrucción de la cámara",
    "crash" := "choque",
    "defensive driving" := "conducción defensiva",
    "drowsy" := "somnolencia",
    "harsh brake" := "frenada brusca",
    "harsh turn" := "giro brusco",
    "inattentive driving" := "conducción inatenta",
    "mobile usage" := "uso del móvil"
  ]

  const SPEEDING_KEY := "límite de velocidad máxima superada"
  const DROWSY_KEY := "somnolencia"
  const HARSH_KEYS := ["frenada brusca", "choque", "giro brusco"]
  const CAMERA_KEY := "obstrucción de la cámara"

  /** The four classification identifiers (lines 220-226). */
  const SPEEDING_ID := "5b26ebdd-48e9-4e1d-b6c5-85eba2c8185f"
  const DROWSY_ID := "7f85857e-7f8c-41e9-bcee-cc633c152931"
  const HARSH_ID := "97360a6f-85ba-4c78-8f87-6ba8a45be21d"
  const CAMERA_ID := "ac2d9e2f-5c8e-49d0-b534-2d9b38a2ced0"

  /** `label.lower().strip()`, what both passes compare, computed as
      `label.strip().lower()`: the two agree by `LowerTrimCommute`. */
  function LabelKey(text: string): string {
    Lower(Trim(text))
  }

  /** The translation of one label by a table (lines 212-215): the table's
      text for the label's key, or the label unchanged. */
  function TranslateBy(table: map<string, string>, text: string): string {
    var key := LabelKey(text);
    if key in table then table[key] else text
  }

  /** The translation of one label by `translation_map`. */
  function Translate(text: string): string {
    TranslateBy(TRANSLATIONS, text)
  }

  /** The `id_evento` of one label (lines 218-228): an ordered chain of exact
      matches on the key. */
  function Classify(text: string): string {
    var key := LabelKey(text);
    if key == SPEEDING_KEY then SPEEDING_ID
    else if key == DROWSY_KEY then DROWSY_ID
    else if key in HARSH_KEYS then HARSH_ID
    else if key == CAMERA_KEY then CAMERA_ID
    else ""
  }

  /** Each identifier is given for exactly its own keys, so the four rules
      are mutually exclusive, and every other key gets the empty
      identifier. */
  lemma ClassifySpec(text: string)
    ensures Classify(text) == SPEEDING_ID <==> LabelKey(text) == SPEEDING_KEY
    ensures Classify(text) == DROWSY_ID <==> LabelKey(text) == DROWSY_KEY
    ensures Classify(text) == HARSH_ID <==> LabelKey(text) in HARSH_KEYS
    ensures Classify(text) == CAMERA_ID <==> LabelKey(text) == CAMERA_KEY
    ensures Classify(text) == "" <==> LabelKey(text) !in [SPEEDING_KEY, DROWSY_KEY, CAMERA_KEY] + HARSH_KEYS
  {
  }

  /** Text already in lower case is left alone by `lower`. */
  lemma LowerOfLower(s: string)
    requires forall i :: 0 <= i < |s| ==> !IsUpper(s[i])
    ensures Lower(s) == s
  {
  }

  /** A text without upper-case letters and without white space at its ends
      is its own key. */
  lemma KeyOfNormal(s: string)
    requires forall i :: 0 <= i < |s| ==> !IsUpper(s[i])
    requires Stripped(s)
    ensures LabelKey(s) == s
  {
    LowerOfLower(s);
    TrimStripped(s);
  }

  /** The eight entries of the table, one by one. */
  lemma TranslationEntries()
    ensures TRANSLATIONS["harsh brake"] == "frenada brusca"
    ensures TRANSLATIONS["crash"] == "choque"
    ensures TRANSLATIONS["harsh turn"] == "giro brusco"
    ensures TRANSLATIONS["drowsy"] == "somnolencia"
    ensures TRANSLATIONS["camera obstruction"] == "obstrucción de la cámara"
    ensures TRANSLATIONS["defensive driving"] == "conducción defensiva"
    ensures TRANSLATIONS["inattentive driving"] == "conducción inatenta"
    ensures TRANSLATIONS["mobile usage"] == "uso del móvil"
  {
  }

  /** The Spanish texts that are classified are their own keys, and get
      their identifiers. */
  lemma ClassifiedTranslations()
    ensures LabelKey("frenada brusca") == "frenada brusca" && Classify("frenada brusca") == HARSH_ID
    ensures LabelKey("choque") == "choque" && Classify("choque") == HARSH_ID
    ensures LabelKey("giro brusco") == "giro brusco" && Classify("giro brusco") == HARSH_ID
  {
    KeyOfNormal("frenada brusca");
    KeyOfNormal("choque");
    KeyOfNormal("giro brusco");
  }

  lemma OwnClassTranslations()
    ensures LabelKey("somnolencia") == "somnolencia" && Classify("somnolencia") == DROWSY_ID
    ensures LabelKey("obstrucción de la cámara") == "obstrucción de la cámara"
            && Classify("obstrucción de la cámara") == CAMERA_ID
  {
    KeyOfNormal("somnolencia");
    KeyOfNormal("obstrucción de la cámara");
  }

  /** The three Spanish texts that no rule classifies. */
  lemma UnclassifiedTranslations()
    ensures LabelKey("conducción defensiva") == "conducción defensiva" && Classify("conducción defensiva") == ""
    ensures LabelKey("conducción inatenta") == "conducción inatenta" && Classify("conducción inatenta") == ""
  {
    KeyOfNormal("conducción defensiva");
    KeyOfNormal("conducción inatenta");
  }

  lemma MobileUsageUnclassified()
    ensures LabelKey("uso del móvil") == "uso del móvil" && Classify("uso del móvil") == ""
  {
    KeyOfNormal("uso del móvil");
  }

  /** Every Spanish text of the table is its own key. */
  lemma TranslationsAreNormal()
    ensures forall k :: k in TRANSLATIONS ==> LabelKey(TRANSLATIONS[k]) == TRANSLATIONS[k]
  {
    forall k | k in TRANSLATIONS
      ensures LabelKey(TRANSLATIONS[k]) == TRANSLATIONS[k]
    {
      TranslationEntries();
      assert TRANSLATIONS.Keys == {"harsh brake", "crash", "harsh turn", "drowsy", "camera obstruction",
                                   "defensive driving", "inattentive driving", "mobile usage"};
      if k in {"harsh brake", "crash", "harsh turn"} {
        ClassifiedTranslations();
      } else if k in {"drowsy", "camera obstruction"} {
        OwnClassTranslations();
      } else if k in {"defensive driving", "inattentive driving"} {
        UnclassifiedTranslations();
      } else {
        MobileUsageUnclassified();
      }
    }
  }

  /** No Spanish text of the table is one of its English keys. */
  lemma TranslationsAreNotKeys()
    ensures forall k :: k in TRANSLATIONS ==> TRANSLATIONS[k] !in TRANSLATIONS
  {
  }

  /** Translating twice is translating once (lines 211-215). */
  lemma TranslateIdempotent(text: string)
    ensures Translate(Translate(text)) == Translate(text)
  {
    if LabelKey(text) in TRANSLATIONS {
      TranslationsAreNormal();
      TranslationsAreNotKeys();
    }
  }

  /** A label is changed exactly when its key is one of the eight English
      phrases, whatever its case and surrounding white space: no Spanish
      text of the table equals the label it replaces. */
  lemma TranslateChangesOnlyKnownKeys(text: string)
    ensures Translate(text) != text <==> LabelKey(text) in TRANSLATIONS
  {
    if LabelKey(text) in TRANSLATIONS {
      TranslationsAreNormal();
      TranslationsAreNotKeys();
    }
  }

  /** What the two passes together assign to a safety label: harsh brake,
      crash and harsh turn share one identifier, drowsy and camera
      obstruction have their own, and the other three translated phrases stay
      unclassified. */
  lemma ClassifyTranslated(text: string)
    ensures LabelKey(text) in {"harsh brake", "crash", "harsh turn"} ==> Classify(Translate(text)) == HARSH_ID
    ensures LabelKey(text) == "drowsy" ==> Classify(Translate(text)) == DROWSY_ID
    ensures LabelKey(text) == "camera obstruction" ==> Classify(Translate(text)) == CAMERA_ID
    ensures LabelKey(text) in {"defensive driving", "inattentive driving", "mobile usage"}
            ==> Classify(Translate(text)) == ""
  {
    TranslationEntries();
    ClassifiedTranslations();
    OwnClassTranslations();
    UnclassifiedTranslations();
    MobileUsageUnclassified();
  }

  lemma SpeedLimitLower()
    ensures Lower(SPEED_LIMIT_LABEL) == SPEEDING_KEY
  {
  }

  /** The key of the alert label is the speeding key. */
  lemma SpeedLimitKey()
    ensures LabelKey(SPEED_LIMIT_LABEL) == SPEEDING_KEY
  {
    TrimStripped(SPEED_LIMIT_LABEL);
    SpeedLimitLower();
  }

  /** Every alert row keeps its label through translation and is classified
      as speeding. */
  lemma ClassifySpeedLimit()
    ensures Translate(SPEED_LIMIT_LABEL) == SPEED_LIMIT_LABEL
    ensures Classify(Translate(SPEED_LIMIT_LABEL)) == SPEEDING_ID
  {
    SpeedLimitKey();
  }

  lemma SpeedAlertLower()
    ensures Lower(SPEED_ALERT_ES) == "alerta de velocidad del vehículo"
  {
  }

  /** The key of the rewritten safety label. */
  lemma SpeedAlertKey()
    ensures LabelKey(SPEED_ALERT_ES) == "alerta de velocidad del vehículo"
  {
    TrimStripped(SPEED_ALERT_ES);
    SpeedAlertLower();
  }

  /** A safety "Vehicle Speed Alert" label, once rewritten to Spanish, is
      neither translated nor classified. */
  lemma RewrittenSpeedAlertUnclassified()
    ensures Translate(SPEED_ALERT_ES) == SPEED_ALERT_ES
    ensures Classify(SPEED_ALERT_ES) == ""
  {
    SpeedAlertKey();
  }

  function TranslateRow(row: EventRow): EventRow {
    row.(eventLabel := Translate(row.eventLabel))
  }

  function ClassifyRow(row: EventRow): EventRow {
    row.(eventId := Some(Classify(row.eventLabel)))
  }

  /** The translation loop (lines 211-215), in place over the row list, with
      `translation_map` as `table`: only the labels change. */
  method TranslateAll(rows: array<EventRow>, table: map<string, string>)
    modifies rows
    ensures forall i :: 0 <= i < rows.Length ==>
              rows[i] == old(rows[i]).(eventLabel := TranslateBy(table, old(rows[i]).eventLabel))
  {
    for i := 0 to rows.Length
      invariant forall k :: 0 <= k < i ==>
                  rows[k] == old(rows[k]).(eventLabel := TranslateBy(table, old(rows[k]).eventLabel))
      invariant forall k :: i <= k < rows.Length ==> rows[k] == old(rows[k])
    {
      var key := LabelKey(rows[i].eventLabel);
      if key in table {
        rows[i] := rows[i].(eventLabel := table[key]);
      }
    }
  }

  /** The classification loop (lines 217-228), in place over the row list:
      only the identifiers change. */
  method ClassifyAll(rows: array<EventRow>)
    modifies rows
    ensures forall i :: 0 <= i < rows.Length ==> rows[i] == ClassifyRow(old(rows[i]))
  {
    for i := 0 to rows.Length
      invariant forall k :: 0 <= k < i ==> rows[k] == ClassifyRow(old(rows[k]))
      invariant forall k :: i <= k < rows.Length ==> rows[k] == old(rows[k])
    {
      rows[i] := rows[i].(eventId := Some(Classify(rows[i].eventLabel)));
    }
  }
}
