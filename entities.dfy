/** The Product entity and the ways the service builds one. */
module Entities {
  import opened Catalog

  /** A product row or a product view; createdAt and updatedAt are not modelled. */
  datatype Product = Product(
    id: int,
    title: string,
    price: real,
    description: string,
    category: string,
    image: string,
    stock: int,
    isLocal: bool)

  /** The body of a create request (CreateProductDto). */
  datatype NewProduct = NewProduct(
    title: string,
    price: real,
    description: string,
    category: string,
    image: string)

  /** A possible value of Math.floor(Math.random() * 100). */
  predicate IsStockDraw(n: int)
  {
    0 <= n < 100
  }

  /** The product carries the identity and descriptive fields of the external item. */
  predicate CopiesExternal(p: Product, e: ExternalItem)
  {
    && p.id == e.id
    && p.title == e.title
    && p.price == e.price
    && p.description == e.description
    && p.category == e.category
    && p.image == e.image
  }

  /** The product carries every field of the create request. */
  predicate CopiesRequest(p: Product, dto: NewProduct)
  {
    && p.title == dto.title
    && p.price == dto.price
    && p.description == dto.description
    && p.category == dto.category
    && p.image == dto.image
  }

  /** The non-persisted view of an item that exists only in the external catalog. */
  function Synthesize(e: ExternalItem, draw: int): Product
  {
    Product(e.id, e.title, e.price, e.description, e.category, e.image, draw, false)
  }

  /** The local row that copies an external item when its stock is first set. */
  function Promote(e: ExternalItem, stock: int): Product
  {
    Product(e.id, e.title, e.price, e.description, e.category, e.image, stock, true)
  }

  /** The local row that create builds from a request. */
  function NewRow(dto: NewProduct, id: int, stock: int): Product
  {
    Product(id, dto.title, dto.price, dto.description, dto.category, dto.image, stock, true)
  }
}
