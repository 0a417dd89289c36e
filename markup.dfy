/**
 * What the slide markup is built from: the values of one slide record, PHP's
 * truthiness test on them, and the WordPress renderers, which the model leaves
 * uninterpreted.
 */
module Markup {
  import opened MetaStore
  import opened FieldReader

  /**
   * The WordPress functions the markup calls, as uninterpreted functions:
   * `esc_html`, `wp_get_attachment_image( $id, 'featured' )`,
   * `apply_filters( 'the_content', … )`, `wp_kses_post`, and `wp_link_pages`
   * with the plugin's arguments, whose output depends on `$numpages` and
   * `$multipage` (and on request state that stays fixed during one render).
   */
  datatype Renderer = Renderer(
    escHtml: MetaValue -> string,
    attachmentImage: MetaValue -> string,
    theContent: MetaValue -> string,
    ksesPost: MetaValue -> string,
    linkPages: (int, bool) -> string)

  /**
   * `$slide[ $key ]`: the meta value stored under `key`, or "" when absent.
   * Rows of the slideshow schema only ever hold meta values.
   */
  function Prop(row: Record, key: string): MetaValue {
    if key in row && row[key].Meta? then row[key].m else Text("")
  }

  /** PHP truthiness of a value the reader returns. */
  predicate Truthy(v: Value) {
    match v
    case Meta(m) => !Empty(m)
    case Rows(rows) => rows != []
  }
}
