/** The records of the website's data file `fazail_data.js`, of the page
    dump `fazail_full_content.json` and of the deeds file
    `deeds_content.json`, as the scripts read and write them. Fields the scripts only copy through (icons, colours,
    descriptions) are not carried. */
module SiteData {

  /** A book: its id, English and Arabic titles and its page range. */
  datatype Book = Book(id: int, title: string, arabic: string, startPage: int, endPage: int)

  /** A chapter of a book. */
  datatype Chapter = Chapter(id: int, bookId: int, title: string, arabic: string)

  /** A story as the website shows it. */
  datatype Story = Story(id: int, bookId: int, chapter: string, title: string, preview: string, content: string)

  /** One page of the page dump: its number and its text, in which Arabic
      passages are wrapped in `<arabic>` ... `</arabic>`. */
  datatype PageContent = PageContent(page: int, content: string)

  /** An entry of `deeds_content.json`: a deed's number, title and text. */
  datatype Deed = Deed(id: nat, title: string, content: string)
}
