/** The per-field metadata record held by a field list. */
module FieldInfos {

  /** A field record as the list sees it: its name (`getName()`) and its
      display string (`toString()`). How the display string is rendered from
      the field's type signature, modifiers and annotations is not part of
      this model, so it is an uninterpreted attribute. */
  datatype FieldInfo = FieldInfo(name: string, display: string)
}
