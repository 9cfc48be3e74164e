/**
 * Article ids as they travel from the request to the response.
 */
module Identifiers {

  /**
   * The value `article.get('id', '')` yields and the response carries: a
   * string, or Python `None` for an id given as JSON null, which the response
   * serialises back as null.
   */
  datatype ArticleId = NullId | IdText(text: string)
}
