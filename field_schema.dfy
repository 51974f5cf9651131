/**
 * The static table of known Solr fields and whether each must be filled in
 * (the class variable `@@fields` of DataIngest).
 */
module FieldSchema {

  /** Field name to "required". Fields not in the table are unknown and never required. */
  const Schema: map<string, bool> := map[
    "dc_identifier_s" := true,
    "dc_rights_s" := true,
    "dct_provenance_s" := true,
    "dct_references_s" := false,
    "dc_creator_sm" := false,
    "dc_language_sm" := false,
    "dc_publisher_sm" := false,
    "dc_type_s" := false,
    "dct_spatial_sm" := false,
    "dct_temporal_sm" := false,
    "dct_issued_dt" := false,
    "dct_ispartof_sm" := false,
    "solr_geom" := true,
    "georss:polygon" := false,
    "dc_title_s" := true,
    "dc_description_s" := false,
    "dc_format_s" := false,
    "dc_subject_sm" := false,
    "layer_id_s" := false,
    "layer_modified_dt" := false,
    "layer_slug_s" := true,
    "layer_geom_type_s" := false,
    "geoblacklight_version" := true
  ]

  /** The seven required fields. */
  const RequiredNames: set<string> := {
    "dc_identifier_s", "dc_rights_s", "dct_provenance_s", "solr_geom",
    "dc_title_s", "layer_slug_s", "geoblacklight_version"
  }

  predicate IsKnown(name: string)
  {
    name in Schema
  }

  /** A field is required when the schema knows it and marks it required. */
  predicate IsRequired(name: string)
  {
    name in Schema && Schema[name]
  }

  /** Exactly the seven listed names are required; in particular an unknown name is not. */
  lemma RequiredExactly(name: string)
    ensures IsRequired(name) <==> name in RequiredNames
    ensures !IsKnown(name) ==> !IsRequired(name)
  {
  }

  /** The sixteen optional names are known and not required. */
  lemma OptionalKnown()
    ensures Schema.Keys - RequiredNames == {
      "dct_references_s", "dc_creator_sm", "dc_language_sm", "dc_publisher_sm", "dc_type_s",
      "dct_spatial_sm", "dct_temporal_sm", "dct_issued_dt", "dct_ispartof_sm", "georss:polygon",
      "dc_description_s", "dc_format_s", "dc_subject_sm", "layer_id_s", "layer_modified_dt",
      "layer_geom_type_s"
    }
    ensures IsKnown("dct_references_s") && !IsRequired("dct_references_s")
    ensures IsKnown("layer_modified_dt") && !IsRequired("layer_modified_dt")
  {
  }
}
