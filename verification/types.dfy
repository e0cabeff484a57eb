/**
 Type-level entities of the C++ library, represented as values.

 The metaprograms being modelled manipulate C++ types and class templates
 only through their identity (`std::is_same`, partial specialisation on a
 template name), so each is an opaque token that supports equality and
 nothing else.
 */
module Types {

  /** A C++ type. Two tokens are equal exactly when they name the same type. */
  type Ty(==)

  /** A class template `template<class...> class T`, identified by its name. */
  type TemplateName(==)
}
