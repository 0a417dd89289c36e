# Paginated Slideshows — a Dafny model of the slide reader and the page builder

Paginated Slideshows is a WordPress plugin. It connects a `slideshow` post to
ordinary posts. When such a post is rendered, the first slide of the slideshow
joins the post's last page and each further slide becomes a page of its own,
with WordPress's own pagination links between the pages. This project models the three pieces of the plugin that compute
something, and proves what they promise:

- **The field reader** `get_field` and the schema `get_config`
  (modules `MetaStore`, `FieldReader`, `FieldReaderLemmas`). The reader takes
  the flat post-meta store of one post and rebuilds a nested record from it:
  plain values, repeater rows and flexible-content rows. It follows a field
  schema in the shape of an ACF field-group export, and it reads nested keys
  such as `slides_3_title`.
- **The page builder** `create_pages` (module `SlideshowPages`). It is a class
  over the WordPress globals `$pages`, `$multipage` and `$numpages`. It adds
  one HTML fragment per slide to the page list. The model also covers the
  `wp_link_pages_link` filter the builder installs, which rewrites `/">` to
  `/#slideshow">`.
- **The content flattener** of `update_slideshow_post_data` (module
  `SlideshowContent`). It joins the slides into post content with
  `<!--nextpage-->` between consecutive slides. The model also states how
  WordPress's split on that marker gives back one page per slide.

The WordPress functions the markup calls (`esc_html`,
`wp_get_attachment_image`, `the_content`, `wp_kses_post`, `wp_link_pages`)
are uninterpreted functions in a `Renderer` value (module `Markup`).

Two behaviours of the code are worth knowing before reading the lemmas:

- A post with no meta does not read as an empty record: each named plain
  field holds `""`, because `get_post_meta( …, true )` returns `""` for a
  missing key and the plain branch stores it
  (`FieldReaderLemmas.EmptyStoreRead`).
- The slides do not each get a page of their own: the first one is appended
  to the post's last existing page, so the list ends with original + K − 1
  pages. With more than one slide, `$numpages` is set to original + K, one
  more than that. With one slide it is left alone. See "Findings".

## Model

| member | source | states |
|---|---|---|
| MetaStore.LeadingDigits | paginated-slideshows.php:380 | The repeater count `$i < $field_value` compares against the longest all-digit prefix of the stored string; the character after it, if any, is not a digit. |
| MetaStore.RowCountRoundTrip | paginated-slideshows.php:380 | A row count stored as decimal text reads back as exactly that many rows. |
| MetaStore.NatToStringInjective | paginated-slideshows.php:388 | Distinct row indices render as distinct decimal strings in the `_{$i}_` key segment. |
| FieldReader.LayoutIndex | paginated-slideshows.php:351-354 | The layout a tag selects has that name, and no later layout has it: the last layout of a name wins. When there is none, no layout has the name. |
| FieldReader.GetField | paginated-slideshows.php:326-399 | The record only ever holds names of named schema entries (entries named `""` or `"0"` are skipped). |
| FieldReader.LayoutRow | paginated-slideshows.php:367-372 | `array_merge` of the layout tag with the row: the row holds the tag key plus every sub-field; the tag is stored unless a sub-field of that name overrides it. |
| FieldReaderLemmas.FieldAt | paginated-slideshows.php:330-396 | A named entry with a unique name is in the record exactly when its branch contributes, and then with that contribution. |
| FieldReaderLemmas.PlainFieldRead | paginated-slideshows.php:393-395 | A plain field is always present, holding the value stored at prefix + name. |
| FieldReaderLemmas.RepeaterFieldRead | paginated-slideshows.php:374-392 | A repeater is present if and only if its stored count is non-empty and positive and it has sub-fields. It then has exactly that many rows, and row j is read from the sub-fields under `<key>_<j>_`. |
| FieldReaderLemmas.FlexibleFieldRead | paginated-slideshows.php:344-373 | A flexible field is present if and only if it stores a tag list that yields at least one row. It then holds exactly those rows. |
| FieldReaderLemmas.LayoutRowsBound | paginated-slideshows.php:356-373 | A flexible field never yields more rows than it has tags. |
| FieldReaderLemmas.LayoutRowsNoneUsable | paginated-slideshows.php:357-361 | Tags that select no layout, or a layout without sub-fields, are all skipped. |
| FieldReaderLemmas.LayoutRowsAllUsable | paginated-slideshows.php:356-373 | When every tag selects a usable layout, there is one row per tag, in tag order. Row j is that tag's layout read under `<key>_<j>_`. |
| FieldReaderLemmas.LayoutRowsUsableOnly | paginated-slideshows.php:356-373 | For any mix of tags there is one row per tag that selects a usable layout, in tag order. The row of usable tag j comes after as many rows as there are usable tags before it, and is read under `<key>_<j>_`, the tag's own position, so a skipped tag leaves its index unused in the meta keys. |
| FieldReaderLemmas.LayoutRowsTagged | paginated-slideshows.php:367-372 | Every flexible-content row carries an `acf_fc_layout` entry. |
| FieldReaderLemmas.LaterLayoutWins | paginated-slideshows.php:352-354 | Of two layouts at positions i < j sharing a name, a tag of that name selects position j or a later one, never i. |
| FieldReaderLemmas.EmptyStoreRead | paginated-slideshows.php:326-399 | A post with no meta reads as exactly its named plain fields, each `""`. Repeaters and flexible fields are left out. |
| FieldReaderLemmas.GetFieldFrame | paginated-slideshows.php:336-342 | The reader only depends on meta keys that start with its prefix: two stores that agree there give the same record. |
| FieldReaderLemmas.RowPrefixesDisjoint | paginated-slideshows.php:388 | No row prefix `<key>_<i>_` is a prefix of another row's `<key>_<j>_`, so with `GetFieldFrame` the rows of one field read disjoint sets of meta keys. |
| FieldReaderLemmas.ReadSlides | paginated-slideshows.php:401-418 | Under the slideshow schema the result is empty when the stored slide count is empty or zero. Otherwise it is exactly `slides`, with one title/image/content record per counted slide, read from `slides_<i>_title` and its siblings. |
| SlideshowPages.AugmentedPages | paginated-slideshows.php:619-657 | After the loop, pages before the last are kept, the last page gets the first fragment appended, and every further fragment is a page of its own. |
| SlideshowPages.TwoSlidesOnOnePage | paginated-slideshows.php:619-626 | One page plus two slides ends with two pages, while original + slides is three. |
| SlideshowPages.PostPages.ResolveSlides | paginated-slideshows.php:580-609 | The guards give the slides of the first connected slideshow, and none when nothing is connected or nothing is read. |
| SlideshowPages.PostPages.AddSlides | paginated-slideshows.php:628-657 | The loop leaves the page list equal to the augmentation of the old list by the slides' fragments, in slide order. |
| SlideshowPages.PostPages.CreatePages | paginated-slideshows.php:575-659 | No slides: nothing changes. One slide: only the pages change. More slides: `multipage` is set and `numpages` = original + slides, which is one more than the resulting page count. |
| SlideshowPages.PostPages.CreatePagesCorrected | paginated-slideshows.php:619-626 | Same as `create_pages`, but `numpages` = original + slides − 1. Pagination globals that agreed with the page list before still agree after. |
| SlideshowPages.AnchorLinksUnchanged | paginated-slideshows.php:611-613 | A link without `/">` passes the filter unchanged. |
| SlideshowPages.AnchorLinksLeavesNone | paginated-slideshows.php:611-613 | No `/">` is left in any filtered link. |
| SlideshowContent.FlattenSlides | paginated-slideshows.php:261-294 | The content is the slides' blocks joined by `<!--nextpage-->`, and `""` when there are no slides. |
| SlideshowContent.JoinSlides | paginated-slideshows.php:276-294 | The loop puts a page break after every slide but the last, giving the blocks joined by the page break. |
| SlideshowContent.ExplodeJoinPages | paginated-slideshows.php:289-292 | Splitting the joined content on the page break gives back exactly the blocks, as long as no block holds a page break itself. `Explode` models WordPress's split of post content into pages (in `setup_postdata`), which is not part of the plugin; the cited lines are where the plugin places the breaks. |
| SlideshowContent.FlattenedSlidesPaginate | paginated-slideshows.php:276-294 | When no slide's block holds a page break itself, K slides become exactly K pages, one per slide in order; no slides give empty content. A slide whose content keeps a `<!--nextpage-->` comment would split into more pages. |

## Left out

- FieldReader.GetField: when two entries at one level share a name, the later one overwrites the earlier one. When the later entry is a repeater or flexible field, PHP instead appends its rows to the earlier value, or fails on `[]` applied to a string. A later plain entry overwrites in PHP too. The lemmas assume unique names (`NameUnique`).
- MetaStore.RowCount: a list stored at a repeater's key reads as 0 rows. In PHP `$i < array` is always true, so the loop never ends. Only the leading-digit reading of numeric strings (PHP 7) is modelled: no leading whitespace, sign, fraction or exponent, and not the PHP 8 rule for non-numeric strings.
- FieldReader.Entry: a flexible field whose stored value is a non-empty string yields no rows, as `foreach` over a string does. PHP also emits a warning there.
- Record: PHP arrays keep insertion order and `array_merge` renumbers integer-like keys. A `map` keeps neither.
- SlideshowPages.PostPages.CreatePages: requires at least one page, because WordPress's `setup_postdata` always builds `$pages` with at least one entry.
- The side effects of `create_pages` that compute nothing: the `add_filter` registration itself (the filter function is modelled as `AnchorLinks`), `remove_action( 'genesis_entry_content', … )` and `wp_enqueue_style`.
- `wp_link_pages` is an uninterpreted function of `$numpages` and `$multipage`. The request state it also reads (the current page) stays fixed during one render.
- The connected slideshows (`p2p_type( … )->get_connected`) and `get_the_title` are inputs to `CreatePages`, not queries.
- `update_slideshow_post_data`: only its content assembly is modelled. The post-type check, `remove_action`/`add_action` around `wp_update_post` and the write itself are WordPress calls. The newline normalisation WordPress applies before splitting on `<!--nextpage-->` is not modelled.
- The plugin lifecycle, the updater, the content-type and relationship registrations, `field_group`, `inline_styles` and `includes/display.php` compute nothing the pages depend on and are not part of this model.

## Findings

| source | as written | input that shows it | evidently intended | confidence | as-written member | corrected member |
|---|---|---|---|---|---|---|
| paginated-slideshows.php:619-626 | `$numpages = count( $pages ) + count( $slides )`, while the first slide is written into the last existing page | a one-page post with a two-slide slideshow: `$pages` ends with 2 entries, `$numpages` is 3 | `$numpages` equals the number of pages the list ends with, count( $pages ) + count( $slides ) − 1 | medium, not executed | SlideshowPages.PostPages.CreatePages | SlideshowPages.PostPages.CreatePagesCorrected |
